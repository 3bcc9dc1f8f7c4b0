# Verified model of the liv_code sheet converters and desktop helpers

This project models, in Dafny, the deterministic core of a collection of
Python scripts. The core is mostly the pipeline that turns tab-separated
exercise sheets into quiz text in Moodle's GIFT import format, plus a few
small desktop helpers:

- **Cloze extraction.** `{{c1::answer}}` spans become the placeholder
  `$Blankspace$`, and their answers become new trailing cells. Sheet 2
  (`process_cloze`) handles every span of a cell, tagging answers with
  `$FIB$`. Sheet 1 (`process`) handles only the first span of a cell, untagged.
  The shared left-to-right reading is the `Cloze` module.
- **Choice splitting.** `process_mcq` turns a cell holding `" / "` into
  stripped, `$MCQ$`-tagged cells.
- **GIFT assembly.** `process_4gift` collects the question run, the choice run
  and the answer run of a row by column adjacency. It builds
  `{=answer ~distractor ...}` and writes it in place of the placeholder.
  Sheet 2's legacy variants (`process_mcq_backup`, `process_cloze_backup`,
  `process_4gift_backup`, `process_4gift_notgood`) and sheet 1's three-column
  `process_4gift` are modelled as well.
- **Standalone GIFT generators.** The tab-separated multiple-choice converter
  (escaping, correct-answer detection, row skipping and rendering) is
  `GiftConvert`. The numbered vocabulary file parser is `Vocab`.
- **Table checks.** `validate_uniformity`, `analyze_uniform_tabular_data`, the
  blank-cell filter of the CSV helpers, and the output file names are
  `Analyzer` and `FileIo`.
- **Delimited text editor.** `DelimitedFile` covers loading and padding, adding
  a row, adding and deleting the last column, and the text written on save.
- **Bluetooth adapter switcher.** `Bluetooth` covers the `hciconfig` listing
  parser, the menu choice, the adapters taken down, and the two-adapter guard.
- **Idle watchers.** `MonitorIdle` is the screen off/on state machine, and
  `SleepWatcher` the idle-time computation and the sleep/baseline decision,
  both in integer milliseconds.
- **Repeat timer.** `RepeatTimer` covers the `mm:ss` reader and display, and
  the generation-guarded countdown of `MinimalRepeatTimer`.

Code that changes state step by step is modelled imperatively. Each method is
proved against a specification function:

- The loops are methods with invariants.
- The four in-place table rewriters (`process`, `process_cloze`,
  `process_mcq_backup`, `process_cloze_backup`) work on an `array` of rows.
- The editor and the timer are classes whose fields their methods update.
- The analysis metadata globals are a class with two fields.

Pure transformations are functions. The properties the scripts rely on are
lemmas about those functions.

Python's string operations are modelled over ASCII in `Strings`: `strip`,
`lower`, `upper`, `find`, `replace`, `split`, `join`, `isdigit`, `int` and
`str`.

Where the code and its own description disagree, the model follows the code:

- `idle_sleep_watcher.py` describes a 15-minute (900 s) threshold, but its
  constant is `5 * 60`, so the model uses 300 s.
- In sheet 2's `process_4gift`, a question run that ends in a `$` cell without
  the placeholder still yields an entry. The cloze is built but never written
  (`English2.GiftQuestionNoBlank`).
- The timer's Start button is wired to a no-op. `start_timer` is modelled all
  the same, since `ack_restart` shares its steps.

## Model

| member | source | states |
|---|---|---|
| Analyzer.FirstMismatchSpec | liv_code/Data-Processing-ForMoodle-TABText/analyzer.py:11-16 | the row the check stops at is the first whose length differs from the expected count; when there is none, every row has that count |
| Analyzer.UniformitySpec | liv_code/Data-Processing-ForMoodle-TABText/analyzer.py:4-18 | `validate_uniformity` succeeds, returning true, exactly when every row is as long as the first; otherwise its error names the first differing row by its 1-based number, with that row's length and the expected count |
| Analyzer.ValidateUniformity | liv_code/Data-Processing-ForMoodle-TABText/analyzer.py:4-18 | the loop returns the outcome of the uniformity check, including the error of the first differing row |
| Analyzer.UniformCells | liv_code/Data-Processing-ForMoodle-TABText/analyzer.py:21-45 | on a table that passes the check, the row count times the column count is the number of cells |
| Analyzer.Metadata.AnalyzeUniformTabularData | liv_code/Data-Processing-ForMoodle-TABText/analyzer.py:21-45 | returns the number of rows and the first row's length (0 and 0 for an empty table), and stores both in the two metadata globals |
| FileIo.MergeEmptySpec | liv_code/Data-Processing-ForMoodle-TABText/file_io.py:40-42 | a cell is kept exactly when it is in the row and is not blank once stripped; the row never grows, and a row without blank cells is unchanged |
| FileIo.MergeEmptyConcat | liv_code/Data-Processing-ForMoodle-TABText/file_io.py:42 | the filter keeps the cells in their order: filtering a concatenation concatenates the filtered parts |
| FileIo.MergeEmptyIdempotent | liv_code/Data-Processing-ForMoodle-TABText/file_io.py:42 | filtering twice is the same as filtering once |
| FileIo.ReadTabCsv | liv_code/Data-Processing-ForMoodle-TABText/file_io.py:30-46 | the row loop of `read_tab_csv` builds exactly the filtered table |
| FileIo.WriteTabCsv | liv_code/Data-Processing-ForMoodle-TABText/file_io.py:57-68 | the rows given to the writer are the table's rows with their blank cells removed |
| FileIo.WriteAfterRead | liv_code/Data-Processing-ForMoodle-TABText/file_io.py:30-68 | writing a table that was just read removes nothing more, so a read and write cycle is stable |
| FileIo.OutputName | liv_code/Data-Processing-ForMoodle-TABText/file_io.py:8-12 | for sheet `n` the processed output is `english_<n>_out.csv` in the data directory |
| FileIo.GiftOutputName | liv_code/Data-Processing-ForMoodle-TABText/file_io.py:14-18 | the GIFT output of sheet `n` is `english_<n>_out_gift`, the processed sheet's name with `_gift` in place of `.csv` |
| SleepWatcher.IdleMs | liv_code/WindowsSuspend/idle_sleep_watcher.py:58-80 | the idle time is never negative; it is at most the time since the last input and at most the time since the baseline; when positive, it is one of the two; it reaches 300 s exactly when the last input is at least 300 s old and so is the baseline, if one is set |
| SleepWatcher.SleepsPrefix | liv_code/WindowsSuspend/idle_sleep_watcher.py:116-132 | the decisions of a longer run of passes begin with those of a shorter run, so a decision never depends on later passes |
| SleepWatcher.SleepOnlyWhenIdle | liv_code/WindowsSuspend/idle_sleep_watcher.py:74-132 | sleep is requested at a pass exactly when both the last input and the baseline in force are at least 300 s old; after a request, whether or not it succeeded, the baseline becomes the tick read when the request returns; otherwise the baseline stays |
| SleepWatcher.FirstPassFromStart | liv_code/WindowsSuspend/idle_sleep_watcher.py:113-120 | the first pass requests sleep only if 300 s have passed since the watcher started, so uptime before the start never counts as idle |
| SleepWatcher.Watcher.constructor | liv_code/WindowsSuspend/idle_sleep_watcher.py:49 | the baseline starts unset |
| SleepWatcher.Watcher.GetIdleMs | liv_code/WindowsSuspend/idle_sleep_watcher.py:58-80 | returns the idle time measured from the later of the last input and the baseline, clamped at zero |
| SleepWatcher.Watcher.MainLoop | liv_code/WindowsSuspend/idle_sleep_watcher.py:108-132 | over a finite run of passes, the loop makes the decisions the sleep rule gives and leaves the baseline at the last tick read after a request, or at the start tick if there was none |
| MonitorIdle.Poll | liv_code/ScreenSleep/monitor_idle_control.py:86-118 | the off tick and the idle time at switch-off are recorded exactly while the monitor is off, and the monitor is acted on exactly when its state changes; while on, it is turned off exactly when the idle time is at least 30 min, recording the tick and the idle time; while off, an idle time below the recorded one turns it on and clears both records; otherwise it is turned on with a fake input exactly when it has been off for at least 60 min, clearing both records |
| MonitorIdle.Trace | liv_code/ScreenSleep/monitor_idle_control.py:85-120 | a run of passes keeps the off-state bookkeeping consistent and takes one action per pass |
| MonitorIdle.ControlLoop | liv_code/ScreenSleep/monitor_idle_control.py:73-120 | the loop, over a finite run of polls, takes the actions of the run from the initial state (monitor on, nothing recorded) |
| MonitorIdle.OffOnlyAfterIdle | liv_code/ScreenSleep/monitor_idle_control.py:89-96 | a monitor that is off at the end was switched off by a pass whose idle time reached 30 minutes, and that pass's tick and idle time are the ones recorded; otherwise it has been off since the start of the run |
| MonitorIdle.OffWithinDuration | liv_code/ScreenSleep/monitor_idle_control.py:108-118 | a monitor still off after a pass was polled less than 60 minutes after it was switched off: a later pass switches it on, whether or not there was input |
| MonitorIdle.SwitchesAlternate | liv_code/ScreenSleep/monitor_idle_control.py:89-118 | starting from the initial state, switch-offs and switch-ons alternate, beginning with a switch-off, and the monitor is off at the end exactly after an odd number of switches |
| Bluetooth.RunEnd | liv_code/Ubuntu_Code/select_bluetooth.py:25 | the `+` of the address pattern: the run found is the longest run of class characters from the start position |
| Bluetooth.MacFromSkip | liv_code/Ubuntu_Code/select_bluetooth.py:25 | `re.search` passes over the positions where the label does not start |
| Bluetooth.MacFromSpec | liv_code/Ubuntu_Code/select_bluetooth.py:25 | a captured address is a non-empty run of the characters `[0-9A-F:]` |
| Bluetooth.MacAtLabel | liv_code/Ubuntu_Code/select_bluetooth.py:25 | at a label followed by white space and an address run, the search captures exactly that run |
| Bluetooth.MacOfLine | liv_code/Ubuntu_Code/select_bluetooth.py:24-27 | the pattern captures the address of a line laid out as `hciconfig` prints it |
| Bluetooth.NameOf | liv_code/Ubuntu_Code/select_bluetooth.py:21 | the adapter name is the longest prefix of its line that holds no colon: the whole line, or the text up to the first colon |
| Bluetooth.GetAdapters | liv_code/Ubuntu_Code/select_bluetooth.py:14-28 | the parsing loop, which keeps `current` as the adapter appended last, finds the adapters of the line-by-line rule |
| Bluetooth.AdapterNames | liv_code/Ubuntu_Code/select_bluetooth.py:19-27 | there is one adapter per `hci` line, named by it, in the order of the lines; address lines never add, drop or rename an adapter |
| Bluetooth.RunConcat | liv_code/Ubuntu_Code/select_bluetooth.py:19-27 | parsing two runs of lines is parsing the second run from where the first left off |
| Bluetooth.NoHciNoAdapter | liv_code/Ubuntu_Code/select_bluetooth.py:20-24 | lines without an `hci` line give no adapter |
| Bluetooth.LeadingLinesIgnored | liv_code/Ubuntu_Code/select_bluetooth.py:24 | address lines before the first `hci` line are ignored (the `and current` guard) |
| Bluetooth.LaterMacWins | liv_code/Ubuntu_Code/select_bluetooth.py:26-27 | a later matching address line overwrites the address an earlier one set on the same adapter |
| Bluetooth.Selection | liv_code/Ubuntu_Code/select_bluetooth.py:44-48 | a choice that is accepted always indexes one of the adapters |
| Bluetooth.SelectNumber | liv_code/Ubuntu_Code/select_bluetooth.py:44-48 | typing the number shown beside an adapter selects that adapter, and text that is not all digits is rejected |
| Bluetooth.ShowMenu | liv_code/Ubuntu_Code/select_bluetooth.py:38-48 | returns the adapter at the typed number less one, or nothing (where the program exits) exactly when the entry is invalid |
| Bluetooth.DisabledSpec | liv_code/Ubuntu_Code/select_bluetooth.py:52-55 | exactly the adapters whose name differs from the kept one are taken down |
| Bluetooth.DisabledCount | liv_code/Ubuntu_Code/select_bluetooth.py:52-55 | one command is issued per adapter not sharing the kept name, so the commands and the adapters of the kept name together account for every adapter |
| Bluetooth.ApplyChoice | liv_code/Ubuntu_Code/select_bluetooth.py:50-55 | the loop issues `hciconfig <name> down` for the other adapters, in order |
| Bluetooth.MainSpec | liv_code/Ubuntu_Code/select_bluetooth.py:65-74 | with fewer than two `hci` lines nothing is switched; a switch keeps the adapter whose number was typed, and the kept name is never taken down |
| RepeatTimer.Pad2 | liv_code/Timer/timer_app-dheeraj-HP-ENVY-15-Notebook-PC-safeBackup-0001.py:137 | the `:02d` field is made of digits and has at least two of them |
| RepeatTimer.LeadingZero | liv_code/Timer/timer_app-dheeraj-HP-ENVY-15-Notebook-PC-safeBackup-0001.py:110-137 | a padding zero does not change the value `int` reads |
| RepeatTimer.ParsePad2 | liv_code/Timer/timer_app-dheeraj-HP-ENVY-15-Notebook-PC-safeBackup-0001.py:110-137 | `int` reads back a padded field as its number |
| RepeatTimer.TwoParts | liv_code/Timer/timer_app-dheeraj-HP-ENVY-15-Notebook-PC-safeBackup-0001.py:107-109 | text with a single colon is taken by the colon branch and splits into the text before the colon and the text after it |
| RepeatTimer.ColonParts | liv_code/Timer/timer_app-dheeraj-HP-ENVY-15-Notebook-PC-safeBackup-0001.py:108-113 | two parts that read as integers give minutes times sixty plus seconds; the time is refused when the minutes are negative or the seconds are outside 0..59 |
| RepeatTimer.DisplayReadsBack | liv_code/Timer/timer_app-dheeraj-HP-ENVY-15-Notebook-PC-safeBackup-0001.py:106-137 | the display reads back as the time it shows: parsing the label's text gives `max(0, seconds)` |
| RepeatTimer.TwoColonsRejected | liv_code/Timer/timer_app-dheeraj-HP-ENVY-15-Notebook-PC-safeBackup-0001.py:108-109 | text with more than one colon is refused (the two-name unpacking raises) |
| RepeatTimer.ColonTime | liv_code/Timer/timer_app-dheeraj-HP-ENVY-15-Notebook-PC-safeBackup-0001.py:106-113 | `"<m>:<s>"` reads as `m*60+s`, and is refused when `m < 0` or `s` is outside 0..59 |
| RepeatTimer.ParseIntString | liv_code/Timer/timer_app-dheeraj-HP-ENVY-15-Notebook-PC-safeBackup-0001.py:110 | `int(str(i)) == i` for every integer, sign included |
| RepeatTimer.Restart | liv_code/Timer/timer_app-dheeraj-HP-ENVY-15-Notebook-PC-safeBackup-0001.py:161-181 | a restart sets both counts to the total, moves to a new generation, marks the timer running with that generation's tick pending, and stops the alarm |
| RepeatTimer.AckRestarted | liv_code/Timer/timer_app-dheeraj-HP-ENVY-15-Notebook-PC-safeBackup-0001.py:169-181 | a parsed text becomes both the total and the time left; when the text does not parse, the restart reuses the previous total if it is positive and otherwise uses 300 s; in every case the timer restarts running, with the alarm off and a new tick generation |
| RepeatTimer.ValidKept | liv_code/Timer/timer_app-dheeraj-HP-ENVY-15-Notebook-PC-safeBackup-0001.py:154-201 | starting, restarting and ticking keep the time left between 0 and the total, and keep a tick pending while the timer runs |
| RepeatTimer.Countdown | liv_code/Timer/timer_app-dheeraj-HP-ENVY-15-Notebook-PC-safeBackup-0001.py:187-198 | while the timer runs in the current generation, each tick takes one second off, updates the label and schedules the next tick, as long as time is left |
| RepeatTimer.AlarmAfterTotal | liv_code/Timer/timer_app-dheeraj-HP-ENVY-15-Notebook-PC-safeBackup-0001.py:183-201 | after a restart with `total` seconds, `total` ticks reach zero with the timer still running; the next tick stops it and starts the alarm |
| RepeatTimer.StaleChainIgnored | liv_code/Timer/timer_app-dheeraj-HP-ENVY-15-Notebook-PC-safeBackup-0001.py:187-190 | after a restart, ticks from an earlier generation change nothing, so a chain scheduled before the restart cannot count down the new time |
| RepeatTimer.MinimalRepeatTimer.constructor | liv_code/Timer/timer_app-dheeraj-HP-ENVY-15-Notebook-PC-safeBackup-0001.py:36-41 | the fields start at zero, not running, with no tick pending, generation 0 and the label showing `00:00` |
| RepeatTimer.MinimalRepeatTimer.ScheduleTick | liv_code/Timer/timer_app-dheeraj-HP-ENVY-15-Notebook-PC-safeBackup-0001.py:183-201 | shows the time left and schedules a tick of the given generation |
| RepeatTimer.MinimalRepeatTimer.RestartWith | liv_code/Timer/timer_app-dheeraj-HP-ENVY-15-Notebook-PC-safeBackup-0001.py:161-181 | the shared restart steps update the fields as the restart rule says |
| RepeatTimer.MinimalRepeatTimer.StartTimer | liv_code/Timer/timer_app-dheeraj-HP-ENVY-15-Notebook-PC-safeBackup-0001.py:154-167 | an entry that does not parse changes nothing; otherwise the timer restarts with the parsed total |
| RepeatTimer.MinimalRepeatTimer.AckRestart | liv_code/Timer/timer_app-dheeraj-HP-ENVY-15-Notebook-PC-safeBackup-0001.py:169-181 | restarts with the parsed total, or with the fallback total when the entry does not parse |
| RepeatTimer.MinimalRepeatTimer.Tick | liv_code/Timer/timer_app-dheeraj-HP-ENVY-15-Notebook-PC-safeBackup-0001.py:187-198 | one tick callback updates the fields as the tick rule says: it ignores stale or stopped chains, sounds the alarm at zero, and otherwise counts down |
| DelimitedFile.TrimNewlinesSpec | liv_code/TextEditor/delimited_file_v1.py:44 | `rstrip("\n")` removes only trailing newlines: what is left is a prefix of the line that does not end in a newline |
| DelimitedFile.TrimWrittenLine | liv_code/TextEditor/delimited_file_v1.py:44 | a line without newlines, written with its `"\n"`, is read back as it was |
| DelimitedFile.Cols | liv_code/TextEditor/delimited_file_v1.py:45 | every line gives at least one cell |
| DelimitedFile.MaxColsSnoc | liv_code/TextEditor/delimited_file_v1.py:47 | one more line raises `max_cols` to that line's cell count when the count is larger |
| DelimitedFile.MaxColsBound | liv_code/TextEditor/delimited_file_v1.py:40-47 | `max_cols` is at least 1, and no line has more cells than it |
| DelimitedFile.MaxColsReached | liv_code/TextEditor/delimited_file_v1.py:40-47 | when the file has a line, `max_cols` is the cell count of one of its lines |
| DelimitedFile.MaxColsUniform | liv_code/TextEditor/delimited_file_v1.py:40-47 | when every line has `c` cells (`c >= 1`), `max_cols` is `c` |
| DelimitedFile.PadSpec | liv_code/TextEditor/delimited_file_v1.py:50-51 | padding keeps the row as a prefix and appends only `""`, up to `max_cols` cells |
| DelimitedFile.PadRow | liv_code/TextEditor/delimited_file_v1.py:50-51 | the `while`/`append` loop pads the row to that padding |
| DelimitedFile.LoadedShape | liv_code/TextEditor/delimited_file_v1.py:38-53 | after loading, every row has `max_cols` cells and begins with the cells of its line, the rest empty |
| DelimitedFile.NoDelimiterLoad | liv_code/TextEditor/delimited_file_v1.py:44-45 | without a delimiter, each row is its whole line minus the trailing newlines, and there is one column |
| DelimitedFile.ReadLines | liv_code/TextEditor/delimited_file_v1.py:42-47 | the line loop splits every line and finds the widest count, starting from 1 |
| DelimitedFile.LoadFile | liv_code/TextEditor/delimited_file_v1.py:38-53 | `load_file` returns the padded table and `max_cols` |
| DelimitedFile.DeleteAfterAdd | liv_code/TextEditor/delimited_file_v1.py:85-108 | deleting the column just added gives back the table |
| DelimitedFile.ColsOfSavedLine | liv_code/TextEditor/delimited_file_v1.py:45-115 | a saved line splits back into its row when no cell holds a newline or the one-character delimiter; without a delimiter, when the row is a single cell |
| DelimitedFile.LoadAfterSave | liv_code/TextEditor/delimited_file_v1.py:38-115 | the lines `save` writes for a table of equal rows, taken as the lines `load_file` reads, give back the same table and the same column count, under those same conditions |
| DelimitedFile.ReadFileText | liv_code/TextEditor/delimited_file_v1.py:42-43 | lines written one after another, each ending in its only newline and holding no carriage return, are read back line for line by text-mode iteration |
| DelimitedFile.CarriageReturnSplitsRow | liv_code/TextEditor/delimited_file_v1.py:42-115 | a cell holding a carriage return is written as is, and universal newlines read it back as two rows: `a\rb` gives `a` and `b` |
| DelimitedFile.LoadFileAfterSave | liv_code/TextEditor/delimited_file_v1.py:38-115 | saving a table of equal rows to a file and loading that file gives the same table and column count, when no cell holds a newline or carriage return and the one-character delimiter is neither a line ending nor in any cell (or, without a delimiter, the table has one column) |
| DelimitedFile.CsvEditor.constructor | liv_code/TextEditor/delimited_file_v1.py:7-12 | the editor opens with the rows and the column count `load_file` returns; every row has that many cells |
| DelimitedFile.CsvEditor.AddRow | liv_code/TextEditor/delimited_file_v1.py:78-79 | appends a row of `col_count` empty cells and keeps every row `col_count` long |
| DelimitedFile.CsvEditor.AddColumn | liv_code/TextEditor/delimited_file_v1.py:85-96 | increments `col_count`, appends `""` to every row, and keeps every row `col_count` long |
| DelimitedFile.CsvEditor.DeleteColumn | liv_code/TextEditor/delimited_file_v1.py:98-108 | refuses and changes nothing when one column is left; otherwise decrements `col_count` and drops the last cell of every row; every row stays `col_count` long and at least one column remains |
| DelimitedFile.CsvEditor.Save | liv_code/TextEditor/delimited_file_v1.py:110-115 | writes one line per row: the cells joined by the delimiter, or the first cell when there is no delimiter |
| GiftConvert.ReplaceChar | liv_code/Python-Moodle-MCQ-TAB-Gift/convert_tab_gift_moodle.py:15-16 | `str.replace` with a one-character pattern substitutes every occurrence of that character |
| GiftConvert.StagesEscape | liv_code/Python-Moodle-MCQ-TAB-Gift/convert_tab_gift_moodle.py:8-17 | the four replacements in table order never re-escape each other's output, so together they escape each character on its own |
| GiftConvert.StagesConcat | liv_code/Python-Moodle-MCQ-TAB-Gift/convert_tab_gift_moodle.py:8-17 | the four replacements act on a concatenation part by part |
| GiftConvert.StagesOne | liv_code/Python-Moodle-MCQ-TAB-Gift/convert_tab_gift_moodle.py:9-16 | one character through the four replacements is the character, with a backslash before it when it is one of `{ } = ~` |
| GiftConvert.SanitizeIsEscape | liv_code/Python-Moodle-MCQ-TAB-Gift/convert_tab_gift_moodle.py:8-17 | `sanitize_gift_text` puts a backslash before exactly the characters `{ } = ~` and keeps everything else |
| GiftConvert.SanitizeGiftText | liv_code/Python-Moodle-MCQ-TAB-Gift/convert_tab_gift_moodle.py:8-17 | the replacement loop returns the escaped text |
| GiftConvert.EscapeHead | liv_code/Python-Moodle-MCQ-TAB-Gift/convert_tab_gift_moodle.py:8-17 | escaped text never starts with one of the four control characters |
| GiftConvert.UnescapeEscape | liv_code/Python-Moodle-MCQ-TAB-Gift/convert_tab_gift_moodle.py:8-17 | escaping loses nothing: removing the inserted backslashes gives the text back, even when the text already held backslashes |
| GiftConvert.EscapeGuarded | liv_code/Python-Moodle-MCQ-TAB-Gift/convert_tab_gift_moodle.py:8-17 | every control character of escaped text has a backslash right before it |
| GiftConvert.EscapeLonger | liv_code/Python-Moodle-MCQ-TAB-Gift/convert_tab_gift_moodle.py:8-17 | escaping never shortens a text, and lengthens every text that holds a control character |
| GiftConvert.TextMatchSpec | liv_code/Python-Moodle-MCQ-TAB-Gift/convert_tab_gift_moodle.py:42-44 | the text match finds the first option equal to the answer ignoring case; it finds nothing exactly when no option is |
| GiftConvert.CorrectIndexSpec | liv_code/Python-Moodle-MCQ-TAB-Gift/convert_tab_gift_moodle.py:20-46 | an index past the options can only come from a letter, so it is below 4; the result is `None` exactly when the answer is not a number in range, not a letter A to D in either case, and not the text of any option |
| GiftConvert.DetectCorrectIndex | liv_code/Python-Moodle-MCQ-TAB-Gift/convert_tab_gift_moodle.py:20-46 | the method, with its loop over the options, returns the index the detection rule gives |
| GiftConvert.CorrectIndexInRange | liv_code/Python-Moodle-MCQ-TAB-Gift/convert_tab_gift_moodle.py:33-93 | with the four options the converter passes, every index found is one of them |
| GiftConvert.StripUpper | liv_code/Python-Moodle-MCQ-TAB-Gift/convert_tab_gift_moodle.py:28-38 | stripping and upper-casing commute |
| GiftConvert.SameUpper | liv_code/Python-Moodle-MCQ-TAB-Gift/convert_tab_gift_moodle.py:31-43 | texts equal up to case are equal once lower-cased, and a run of digits equals only itself up to case |
| GiftConvert.TextMatchLower | liv_code/Python-Moodle-MCQ-TAB-Gift/convert_tab_gift_moodle.py:43 | answers equal once lower-cased find the same option |
| GiftConvert.CorrectIndexIgnoresCase | liv_code/Python-Moodle-MCQ-TAB-Gift/convert_tab_gift_moodle.py:28-44 | answers that differ only in case select the same option |
| GiftConvert.LetterBeforeText | liv_code/Python-Moodle-MCQ-TAB-Gift/convert_tab_gift_moodle.py:37-44 | a letter A to D is taken before any option text, so an option whose text is another option's letter loses |
| GiftConvert.RawAnswerMissesOption | liv_code/Python-Moodle-MCQ-TAB-Gift/convert_tab_gift_moodle.py:41-93 | as written, an answer holding a control character is never found by its text, not even in the option it was copied from |
| GiftConvert.EscapeLower | liv_code/Python-Moodle-MCQ-TAB-Gift/convert_tab_gift_moodle.py:43 | lower-casing leaves the control characters and the backslash alone |
| GiftConvert.SanitizedSameCase | liv_code/Python-Moodle-MCQ-TAB-Gift/convert_tab_gift_moodle.py:43 | two escaped texts are equal ignoring case exactly when the texts are |
| GiftConvert.TextMatchSanitized | liv_code/Python-Moodle-MCQ-TAB-Gift/convert_tab_gift_moodle.py:42-44 | an escaped answer matches among escaped options exactly where the answer matches among the texts |
| GiftConvert.IntendedFindsText | liv_code/Python-Moodle-MCQ-TAB-Gift/convert_tab_gift_moodle.py:41-44 | with the answer escaped like the options, an option is found by its text exactly as if nothing had been escaped |
| GiftConvert.OptionLinesBelow | liv_code/Python-Moodle-MCQ-TAB-Gift/convert_tab_gift_moodle.py:104-106 | when the correct index is past every option, every option line is a `~` line |
| GiftConvert.OptionLinesSplit | liv_code/Python-Moodle-MCQ-TAB-Gift/convert_tab_gift_moodle.py:104-106 | exactly one option line is marked `=`, the one at the correct index, and the others are `~` lines in order |
| GiftConvert.WriteOptions | liv_code/Python-Moodle-MCQ-TAB-Gift/convert_tab_gift_moodle.py:104-106 | the inner loop writes those option lines |
| GiftConvert.GiftBlockSplit | liv_code/Python-Moodle-MCQ-TAB-Gift/convert_tab_gift_moodle.py:102-108 | a block is the heading `::Q<row>::`, the question and `{`, then the wrong lines before the correct one, the `=` line, the wrong lines after it, and `}` |
| GiftConvert.SomesSpec | liv_code/Python-Moodle-MCQ-TAB-Gift/convert_tab_gift_moodle.py:65-110 | the blocks kept are exactly the present ones, and there are never more blocks than rows |
| GiftConvert.ConvertRow | liv_code/Python-Moodle-MCQ-TAB-Gift/convert_tab_gift_moodle.py:67-108 | the loop body returns no block for a short row, for the header in row 1 and for a row without a detectable answer, and the row's block otherwise |
| GiftConvert.TsvToGift | liv_code/Python-Moodle-MCQ-TAB-Gift/convert_tab_gift_moodle.py:49-110 | writes the blocks of the rows in order, and counts exactly the blocks written |
| GiftConvert.RowBlockShape | liv_code/Python-Moodle-MCQ-TAB-Gift/convert_tab_gift_moodle.py:70-108 | a block comes only from a row of at least six cells that is not the header; it carries the row number and the escaped question, and exactly one of the four escaped options is marked correct |
| GiftConvert.BlocksRows | liv_code/Python-Moodle-MCQ-TAB-Gift/convert_tab_gift_moodle.py:65-110 | the blocks written are exactly those of the rows that give one, each numbered by its own row number, which counts the skipped rows too |
| GiftConvert.HeaderOnlyFirst | liv_code/Python-Moodle-MCQ-TAB-Gift/convert_tab_gift_moodle.py:75 | only row 1 is checked for the header word; a later row mentioning it is converted when its answer is detected |
| GiftConvert.GiftTextConcat | liv_code/Python-Moodle-MCQ-TAB-Gift/convert_tab_gift_moodle.py:102-108 | the output file is the blocks one after the other |
| Vocab.CleanLinesSpec | liv_code/Data-Processing-ForMoodle-TABText/Data_EngVocab/process_vocab.py:8 | every line kept is a stripped, non-blank line of the file, and there are never more lines kept than read |
| Vocab.CleanLinesIdempotent | liv_code/Data-Processing-ForMoodle-TABText/Data_EngVocab/process_vocab.py:8 | cleaning cleaned lines changes nothing |
| Vocab.DigitsEndSpec | liv_code/Data-Processing-ForMoodle-TABText/Data_EngVocab/process_vocab.py:18 | the run counted is made of digits and is not followed by a digit |
| Vocab.QuestionTextSpec | liv_code/Data-Processing-ForMoodle-TABText/Data_EngVocab/process_vocab.py:18-21 | a question line is digits, a dot, white space, then the question, which ends in `?` and starts with no white space |
| Vocab.QuestionTextOf | liv_code/Data-Processing-ForMoodle-TABText/Data_EngVocab/process_vocab.py:18-21 | conversely, digits, a dot, white space and text ending in `?` give that text as the question |
| Vocab.AnswerAnyCase | liv_code/Data-Processing-ForMoodle-TABText/Data_EngVocab/process_vocab.py:41-44 | the answer marker is recognised in any mix of case, and the answer is the rest of the line, stripped |
| Vocab.LineKinds | liv_code/Data-Processing-ForMoodle-TABText/Data_EngVocab/process_vocab.py:18-41 | no line is both an option and an answer line, and a question line is neither |
| Vocab.ScanStops | liv_code/Data-Processing-ForMoodle-TABText/Data_EngVocab/process_vocab.py:29-48 | the option scan stops at the first answer line after the question, and runs to the end of the lines when there is none |
| Vocab.ScanOptionsRead | liv_code/Data-Processing-ForMoodle-TABText/Data_EngVocab/process_vocab.py:34-38 | every option gathered is the option of a line the scan read |
| Vocab.KeptSpec | liv_code/Data-Processing-ForMoodle-TABText/Data_EngVocab/process_vocab.py:62-64 | an option is written as a distractor exactly when it differs from the answer once both are stripped and lower-cased, so the answer never reappears as a distractor |
| Vocab.RenderAllConcat | liv_code/Data-Processing-ForMoodle-TABText/Data_EngVocab/process_vocab.py:68 | the blocks of two runs of questions are the blocks of the first followed by those of the second |
| Vocab.BlocksNumbered | liv_code/Data-Processing-ForMoodle-TABText/Data_EngVocab/process_vocab.py:53-70 | the questions taken are numbered one after the other, in input order |
| Vocab.BlockHeading | liv_code/Data-Processing-ForMoodle-TABText/Data_EngVocab/process_vocab.py:52-54 | a block starts with `::<number>::` |
| Vocab.VocabBlocksNumbered | liv_code/Data-Processing-ForMoodle-TABText/Data_EngVocab/process_vocab.py:52-70 | the blocks of a file are headed `::0::`, `::1::`, ... in order |
| Vocab.BlocksSources | liv_code/Data-Processing-ForMoodle-TABText/Data_EngVocab/process_vocab.py:13-51 | every question written comes from a question line, with the options and the answer line that follow it |
| Vocab.BlocksLength | liv_code/Data-Processing-ForMoodle-TABText/Data_EngVocab/process_vocab.py:13-72 | there are never more questions than lines |
| Vocab.StepsOfLines | liv_code/Data-Processing-ForMoodle-TABText/Data_EngVocab/process_vocab.py:18-51 | a line gives a question exactly when it is a question line with an answer line after it; the question then carries that answer, the options before it and the position of the answer line |
| Vocab.ParseEmits | liv_code/Data-Processing-ForMoodle-TABText/Data_EngVocab/process_vocab.py:20-72 | after a question is taken, the parse resumes after its answer line with the next number |
| Vocab.ParseStops | liv_code/Data-Processing-ForMoodle-TABText/Data_EngVocab/process_vocab.py:20-51 | a question with no answer line after it ends the parse (the scan has reached the end of the lines) |
| Vocab.ParseSkips | liv_code/Data-Processing-ForMoodle-TABText/Data_EngVocab/process_vocab.py:18-72 | a line that is not a question line is passed over |
| Vocab.UnansweredEnds | liv_code/Data-Processing-ForMoodle-TABText/Data_EngVocab/process_vocab.py:29-51 | when no answer line follows a question, nothing after it gives a block |
| Vocab.BuildBlock | liv_code/Data-Processing-ForMoodle-TABText/Data_EngVocab/process_vocab.py:52-66 | builds the block: heading, question, `{=` and the answer, then the distractors, then `}` and a blank line |
| Vocab.AddDistractors | liv_code/Data-Processing-ForMoodle-TABText/Data_EngVocab/process_vocab.py:62-64 | the option loop appends ` ~<option>` for each option kept, in order |
| Vocab.KeptStep | liv_code/Data-Processing-ForMoodle-TABText/Data_EngVocab/process_vocab.py:62-64 | each further option either joins the distractors or is dropped |
| Vocab.TildesSnoc | liv_code/Data-Processing-ForMoodle-TABText/Data_EngVocab/process_vocab.py:64 | one more distractor appends ` ~` and the option |
| Vocab.ScanOptions | liv_code/Data-Processing-ForMoodle-TABText/Data_EngVocab/process_vocab.py:23-48 | the inner loop gathers the options of the scan and stops at its answer line, or at the end of the lines with no answer |
| Vocab.TakeQuestion | liv_code/Data-Processing-ForMoodle-TABText/Data_EngVocab/process_vocab.py:20-72 | handling a question line adds the blocks that parsing from that line gives, and resumes after the line the scan stopped at |
| Vocab.ProcessMcqFile | liv_code/Data-Processing-ForMoodle-TABText/Data_EngVocab/process_vocab.py:3-78 | returns the blocks of the file, and `SNo` is the number of blocks written |
| Cloze.EndAfterStart | liv_code/Data-Processing-ForMoodle-TABText/processors/english_2.py:158-159 | the `}}` search from the start of `{{c1::` finds the same token as a search from its end, so an answer never overlaps the opening token |
| Cloze.FindSkip | liv_code/Data-Processing-ForMoodle-TABText/processors/english_2.py:158 | `find` from two positions agrees when the token does not occur between them |
| Cloze.FindShift | liv_code/Data-Processing-ForMoodle-TABText/processors/english_2.py:158-159 | a search that starts inside the second part of a concatenation is a search in that part |
| Cloze.FindPastPrefix | liv_code/Data-Processing-ForMoodle-TABText/processors/english_2.py:158 | `find` passes over a prefix in which no opening token starts |
| Cloze.BlankHasNoStart | liv_code/Data-Processing-ForMoodle-TABText/processors/english_2.py:147-174 | the placeholder holds no opening token, so each replacement removes one |
| Cloze.FirstSpan | liv_code/Data-Processing-ForMoodle-TABText/processors/english_2.py:158-163 | a span found lies inside the cell, with its answer between the two tokens |
| Cloze.RescanStep | liv_code/Data-Processing-ForMoodle-TABText/processors/english_2.py:157-159 | after a settled prefix (text already read, ending in a placeholder), the loop's next `find` calls land where they would in the rest of the cell |
| Cloze.ScanUnfold | liv_code/Data-Processing-ForMoodle-TABText/processors/english_2.py:157-174 | at a complete first span, the reading is the text before it, the placeholder and the reading of the rest, with the span's answer first |
| Cloze.ScanAt | liv_code/Data-Processing-ForMoodle-TABText/processors/english_2.py:166-174 | the same unfolding, with the text before, the answer and the rest named |
| Cloze.ScanSpan | liv_code/Data-Processing-ForMoodle-TABText/processors/english_2.py:158-166 | the span's bounds are the first opening token and the first closing token after it, with no closing token in between |
| Cloze.ScanAfterRewrite | liv_code/Data-Processing-ForMoodle-TABText/processors/english_2.py:157-174 | replacing the first span by the placeholder and reading the result again gives the same text and the remaining answers, which is why the loop's rescan from the start agrees with a single left-to-right reading |
| Cloze.ScanSettledPrefix | liv_code/Data-Processing-ForMoodle-TABText/processors/english_2.py:157-174 | reading a cell behind a settled prefix leaves the prefix as it is |
| Cloze.RefillStep | liv_code/Data-Processing-ForMoodle-TABText/processors/english_2.py:166-174 | putting an answer back between the tokens in place of a placeholder reverses one replacement |
| Cloze.SpanParts | liv_code/Data-Processing-ForMoodle-TABText/processors/english_2.py:166-174 | a cell around a complete span is the text before it, the opening token, the answer, the closing token and the rest, in that order |
| Cloze.ScanRefill | liv_code/Data-Processing-ForMoodle-TABText/processors/english_2.py:157-174 | for a cell without `$`, putting the answers back in place of the placeholders gives back the cell, so the reading loses nothing |
| Cloze.WellFormedSuffix | liv_code/Data-Processing-ForMoodle-TABText/processors/english_2.py:157-163 | what follows a position of a cell in which every opening token has a later closing token has that property too |
| Cloze.ClearsPastSpan | liv_code/Data-Processing-ForMoodle-TABText/processors/english_2.py:157-174 | if the reading of the text after the first span leaves no opening token, neither does the reading of the cell |
| Cloze.ScanClearsWellFormed | liv_code/Data-Processing-ForMoodle-TABText/processors/english_2.py:157-174 | when every opening token of a cell has a later closing token, no opening token remains afterwards |
| Cloze.ScanAnswersHaveNoEnd | liv_code/Data-Processing-ForMoodle-TABText/processors/english_2.py:159-166 | each answer is the text strictly between `{{c1::` and the next `}}`, so it holds no `}}` |
| Cloze.ScanUnchanged | liv_code/Data-Processing-ForMoodle-TABText/processors/english_2.py:157-163 | a cell without an opening token, or whose first opening token has no closing token after it, is left unchanged and gives no answer |
| Cloze.MalformedExample | liv_code/Data-Processing-ForMoodle-TABText/processors/english_2.py:159-163 | `"A {{c1::X B"` is returned unchanged, with no answer |
| Cloze.ExampleSpan | liv_code/Data-Processing-ForMoodle-TABText/processors/english_2.py:158-159 | in `"A {{c1::X}} B"` the span runs from index 2 to the closing token at index 9 |
| Cloze.ExampleTail | liv_code/Data-Processing-ForMoodle-TABText/processors/english_2.py:157 | text without an opening token gives no answer |
| Cloze.WellFormedExample | liv_code/Data-Processing-ForMoodle-TABText/processors/english_2.py:157-174 | `"A {{c1::X}} B"` becomes `"A $Blankspace$ B"` with the one answer `"X"` |
| English1.FirstAnswers | liv_code/Data-Processing-ForMoodle-TABText/processors/english_1.py:11-29 | a row gives at most one answer per cell |
| English1.RewriteFirst | liv_code/Data-Processing-ForMoodle-TABText/processors/english_1.py:15-38 | the column loop body replaces the first span of a cell by the placeholder and takes its answer, and keeps a cell without a complete span |
| English1.ProcessRow | liv_code/Data-Processing-ForMoodle-TABText/processors/english_1.py:9-42 | a row's cells are rewritten, then its answers are appended untagged, in column order |
| English1.Process | liv_code/Data-Processing-ForMoodle-TABText/processors/english_1.py:3-44 | `process` rewrites every row of the table in place, and only the rows |
| English1.FirstIsScanHead | liv_code/Data-Processing-ForMoodle-TABText/processors/english_1.py:17-38 | the answer taken is the first answer the all-clozes reader of sheet 2 takes from the same cell, and a cell without one is kept |
| English1.FirstClozeRestores | liv_code/Data-Processing-ForMoodle-TABText/processors/english_1.py:28-36 | putting the answer back between the tokens in place of the placeholder restores the cell |
| English1.SecondClozeStays | liv_code/Data-Processing-ForMoodle-TABText/processors/english_1.py:19-38 | only the first span is rewritten: a second span after it stays literal text in the cell |
| English1.FirstAnswersCount | liv_code/Data-Processing-ForMoodle-TABText/processors/english_1.py:13-42 | a row with a complete span in every cell gains exactly as many cells as it had, and a row without any gains none |
| English1.Process4Gift | liv_code/Data-Processing-ForMoodle-TABText/processors/english_1.py:54-84 | the row loop of `process_4gift` returns the blocks of the rows, in order |
| English1.BlocksSpec | liv_code/Data-Processing-ForMoodle-TABText/processors/english_1.py:54-84 | there is one block per row of at least four cells; shorter rows are skipped; when every row has four cells, the blocks are those of sheet 2's unguarded `process_4gift_backup`, which then does not fail |
| English2.Rewritten | liv_code/Data-Processing-ForMoodle-TABText/processors/english_2.py:153-177 | the row keeps its column count (the per-cell rewrite is stated by `ClozeRowShape`) |
| English2.TaggedConcat | liv_code/Data-Processing-ForMoodle-TABText/processors/english_2.py:167-181 | tagging the answers of two runs of cells is tagging them run by run |
| English2.RewriteLowersBraces | liv_code/Data-Processing-ForMoodle-TABText/processors/english_2.py:157-174 | each replacement strictly lowers the number of `{` in the cell, so the rescanning loop ends on every cell |
| English2.ScanCell | liv_code/Data-Processing-ForMoodle-TABText/processors/english_2.py:157-174 | the inner loop, which rescans the cell from its start after each replacement, gives the cell with every complete span replaced by the placeholder, and the answers in order |
| English2.ScanRow | liv_code/Data-Processing-ForMoodle-TABText/processors/english_2.py:151-181 | the column loop rewrites the cells in place and appends the tagged answers when there are any |
| English2.ProcessCloze | liv_code/Data-Processing-ForMoodle-TABText/processors/english_2.py:144-183 | `process_cloze` rewrites every row of the table in place, and only the rows |
| English2.ClozeRowShape | liv_code/Data-Processing-ForMoodle-TABText/processors/english_2.py:153-181 | a row keeps its cells, each with its spans replaced, and gains one `$FIB$` answer per complete span, left to right within a cell and then column by column |
| English2.NoAnswerUnchanged | liv_code/Data-Processing-ForMoodle-TABText/processors/english_2.py:157-177 | a cell that gives no answer is returned unchanged |
| English2.RowAnswersEmptyIff | liv_code/Data-Processing-ForMoodle-TABText/processors/english_2.py:180 | a row gains no cell exactly when none of its cells holds a complete cloze |
| English2.ClozeRowUnchanged | liv_code/Data-Processing-ForMoodle-TABText/processors/english_2.py:157-181 | a row none of whose cells holds a complete cloze is returned unchanged |
| English2.NonBlankStripped | liv_code/Data-Processing-ForMoodle-TABText/processors/english_2.py:73 | the pieces kept are never more than the pieces split |
| English2.ProcessMcq | liv_code/Data-Processing-ForMoodle-TABText/processors/english_2.py:61-83 | `process_mcq` builds a new table with one row per row, each rebuilt from its cells; the input is left as it is |
| English2.McqRowOf | liv_code/Data-Processing-ForMoodle-TABText/processors/english_2.py:67-79 | the row loop body builds the cells the row's cells become, in column order |
| English2.McqCellOf | liv_code/Data-Processing-ForMoodle-TABText/processors/english_2.py:71-79 | the column loop body gives the cells one cell becomes |
| English2.NonBlankStrippedParts | liv_code/Data-Processing-ForMoodle-TABText/processors/english_2.py:73 | every piece kept is stripped and not blank |
| English2.NonBlankStrippedKeeps | liv_code/Data-Processing-ForMoodle-TABText/processors/english_2.py:73 | pieces that are already stripped and not blank are all kept, as they are |
| English2.McqCellShape | liv_code/Data-Processing-ForMoodle-TABText/processors/english_2.py:71-79 | a cell without `" / "` is copied as is; with it, each cell produced is a stripped, non-blank piece followed by `$MCQ$` |
| English2.McqCellRoundTrip | liv_code/Data-Processing-ForMoodle-TABText/processors/english_2.py:71-77 | dropping the tags and joining the pieces with `" / "` gives back a cell whose pieces were already stripped and not blank |
| English2.Untagged | liv_code/Data-Processing-ForMoodle-TABText/processors/english_2.py:77 | dropping the tags keeps one piece per cell |
| English2.SplitOffChoices | liv_code/Data-Processing-ForMoodle-TABText/processors/english_2.py:43-48 | the `while` loop splits off the piece before each separator in turn; the pieces split off, followed by the last piece, are the cell split on `" / "` |
| English2.ProcessMcqBackup | liv_code/Data-Processing-ForMoodle-TABText/processors/english_2.py:17-58 | `process_mcq_backup` keeps the header row and rewrites every later row in place |
| English2.McqBackupRowOf | liv_code/Data-Processing-ForMoodle-TABText/processors/english_2.py:28-53 | the row loop body keeps each cell's last piece in the cell and appends the other pieces, column by column |
| English2.SplitOffRoundTrip | liv_code/Data-Processing-ForMoodle-TABText/processors/english_2.py:43-50 | no piece is lost: the pieces split off and the piece kept, joined with the separator, give back the cell |
| English2.AddName | liv_code/Data-Processing-ForMoodle-TABText/processors/english_2.py:136-140 | after a pass of the header loop, the name is in the header |
| English2.AddNamesFromNames | liv_code/Data-Processing-ForMoodle-TABText/processors/english_2.py:136-140 | names added from a fixed starting number keep the header as a prefix and leave every one of the `m` consecutive names in it |
| English2.AddNamesNames | liv_code/Data-Processing-ForMoodle-TABText/processors/english_2.py:136-140 | the header loop as evidently intended keeps the header as a prefix, and the names `<len>Ans` to `<len+m-1>Ans` are all in it |
| English2.AddNamesAsWrittenSkips | liv_code/Data-Processing-ForMoodle-TABText/processors/english_2.py:136-140 | as written, a three-column header and two answers give the names `3Ans` and `5Ans`: `4Ans` is skipped |
| English2.ClozeBackupCells | liv_code/Data-Processing-ForMoodle-TABText/processors/english_2.py:107-129 | the column loop rewrites the cells that hold an opening token and gathers the answers in order, untagged |
| English2.AddAnswerHeaders | liv_code/Data-Processing-ForMoodle-TABText/processors/english_2.py:136-140 | the header loop, with its set of names seen, extends the header as written, and the set stays the set of the header's names |
| English2.ClozeBackupStep | liv_code/Data-Processing-ForMoodle-TABText/processors/english_2.py:103-140 | the row loop body rewrites the row, appends its untagged answers, and adds header names for them when there are any |
| English2.HeaderAfterFront | liv_code/Data-Processing-ForMoodle-TABText/processors/english_2.py:103-140 | the header after a run of rows is the header after the first row, then after the rest |
| English2.ProcessClozeBackup | liv_code/Data-Processing-ForMoodle-TABText/processors/english_2.py:88-142 | `process_cloze_backup` rewrites the data rows in place, and the header row gains the answer names of the rows |
| English2.CollectQuestion | liv_code/Data-Processing-ForMoodle-TABText/processors/english_2.py:391-402 | step 1 gives the stripped cells from column 1 up to and including the first one holding a `$`, and that column |
| English2.CollectChoices | liv_code/Data-Processing-ForMoodle-TABText/processors/english_2.py:413-428 | step 2 gives the untagged, stripped choices up to the first empty or `$FIB$` cell, and the last choice column |
| English2.CollectAnswers | liv_code/Data-Processing-ForMoodle-TABText/processors/english_2.py:433-444 | step 3 gives the untagged, stripped `$FIB$` answers up to the first empty cell |
| English2.BuildCloze | liv_code/Data-Processing-ForMoodle-TABText/processors/english_2.py:460-470 | step 5 builds `{=`, the first answer, then ` ~` and each choice that differs from the answer, then `}` |
| English2.RenderEntry | liv_code/Data-Processing-ForMoodle-TABText/processors/english_2.py:476-481 | the cloze replaces every placeholder in the joined question, and the entry is numbered by its row index |
| English2.GiftRow | liv_code/Data-Processing-ForMoodle-TABText/processors/english_2.py:383-483 | the row loop body gives the entry the row rule gives, or none |
| English2.FinishEntry | liv_code/Data-Processing-ForMoodle-TABText/processors/english_2.py:413-483 | steps 2 to 6 give the entry once the question ends at a given column |
| English2.Process4Gift | liv_code/Data-Processing-ForMoodle-TABText/processors/english_2.py:380-485 | `process_4gift` gives one entry per row that is not skipped, in row order |
| English2.QuestionRunSpec | liv_code/Data-Processing-ForMoodle-TABText/processors/english_2.py:394-405 | the question run ends at the first cell holding a `$`, from column 1 on; there is no such column, and the row is skipped, exactly when no cell has one |
| English2.QuestionRunCells | liv_code/Data-Processing-ForMoodle-TABText/processors/english_2.py:395-400 | each question part is the stripped cell of its own column |
| English2.McqRunLast | liv_code/Data-Processing-ForMoodle-TABText/processors/english_2.py:416-428 | a choice column is recorded exactly when some choice was collected, and it is a `$MCQ$` cell inside the run |
| English2.McqRunStripped | liv_code/Data-Processing-ForMoodle-TABText/processors/english_2.py:426 | every choice has lost its tag and its surrounding white space |
| English2.FibRunNeedsTag | liv_code/Data-Processing-ForMoodle-TABText/processors/english_2.py:436-444 | answers come only from `$FIB$` cells |
| English2.FibRunFinds | liv_code/Data-Processing-ForMoodle-TABText/processors/english_2.py:436-444 | a `$FIB$` cell before the first empty cell gives an answer |
| English2.DistractorsConcat | liv_code/Data-Processing-ForMoodle-TABText/processors/english_2.py:466-468 | the distractor text of two runs of choices is the first run's text followed by the second's |
| English2.DistractorsSkipAnswer | liv_code/Data-Processing-ForMoodle-TABText/processors/english_2.py:466-468 | a choice equal to the answer, compared exactly, is never written as a distractor, wherever it stands; any other choice adds ` ~` and itself |
| English2.GiftEntryShape | liv_code/Data-Processing-ForMoodle-TABText/processors/english_2.py:385-481 | an entry comes only from a row of at least two cells with a `$` cell from column 1 on; it is the row's question with the cloze in place, numbered by the row index |
| English2.GiftQuestionNoBlank | liv_code/Data-Processing-ForMoodle-TABText/processors/english_2.py:476-481 | when the question holds no placeholder, the cloze is built but never written: the entry is the joined question as it stands |
| English2.GiftQuestionHasCloze | liv_code/Data-Processing-ForMoodle-TABText/processors/english_2.py:476-481 | when the question holds the placeholder, the entry carries the cloze |
| English2.GiftEntriesRows | liv_code/Data-Processing-ForMoodle-TABText/processors/english_2.py:383-485 | the entries are exactly those of the rows that are not skipped, each numbered by its own row index, which counts skipped rows too |
| English2.EntryOptions | liv_code/Data-Processing-ForMoodle-TABText/processors/english_2.py:383-483 | each row gives an entry or none, one per row |
| English2.PresentSpec | liv_code/Data-Processing-ForMoodle-TABText/processors/english_2.py:383-485 | every entry a row gives is kept, nothing else is, and there are never more entries than rows |
| English2.GiftEntriesPresent | liv_code/Data-Processing-ForMoodle-TABText/processors/english_2.py:383-485 | the output keeps exactly the entries the rows give, in row order |
| English2.FillBlockOf | liv_code/Data-Processing-ForMoodle-TABText/processors/english_2.py:203-222 | builds the block `::Question::`, the stripped second cell, then the stripped third cell with each placeholder replaced by `{=` and the answer `}` |
| English2.Process4GiftBackup | liv_code/Data-Processing-ForMoodle-TABText/processors/english_2.py:194-224 | `process_4gift_backup` fails with `list index out of range` at the first short row, and otherwise gives the blocks of the rows |
| English2.FailureStays | liv_code/Data-Processing-ForMoodle-TABText/processors/english_2.py:198-205 | once a row fails, the whole call fails with that error |
| English2.BackupBlocksSpec | liv_code/Data-Processing-ForMoodle-TABText/processors/english_2.py:194-224 | the call fails exactly when some row has fewer than four cells; otherwise there is one block per row, in row order |
| English2.FillBlockCloze | liv_code/Data-Processing-ForMoodle-TABText/processors/english_2.py:210-220 | a question holding the placeholder gets the answer cloze, and one without it is kept as it stands |
| English2.BlankDollars | liv_code/Data-Processing-ForMoodle-TABText/processors/english_2.py:280 | the placeholder holds two `$` and its replacement `_____` holds none |
| English2.Rescan | liv_code/Data-Processing-ForMoodle-TABText/processors/english_2.py:275-298 | the rescanning of a token cell always ends with no `$` left |
| English2.RescanCell | liv_code/Data-Processing-ForMoodle-TABText/processors/english_2.py:275-298 | the inner `while` loop rescans a token cell as the rescanning rule says |
| English2.NotgoodRow | liv_code/Data-Processing-ForMoodle-TABText/processors/english_2.py:242-376 | the row loop body gives the entry the row rule gives, or none |
| English2.QuestionCells | liv_code/Data-Processing-ForMoodle-TABText/processors/english_2.py:252-305 | phase one gathers the question parts and the tokens of the first token cell, and stops after that cell |
| English2.TokenCells | liv_code/Data-Processing-ForMoodle-TABText/processors/english_2.py:308-336 | phase two rescans every later non-empty cell for its tokens |
| English2.RenderGift | liv_code/Data-Processing-ForMoodle-TABText/processors/english_2.py:341-374 | a blank question lists the answers, a question with choices marks each one `=` or `~`, anything else is a description |
| English2.Process4GiftNotgood | liv_code/Data-Processing-ForMoodle-TABText/processors/english_2.py:229-378 | `process_4gift_notgood` gives one entry per row that is not skipped, in row order |
| English2.RescanExtends | liv_code/Data-Processing-ForMoodle-TABText/processors/english_2.py:275-298 | rescanning a cell only adds to the tokens: at most one option or one answer, and any number of blanks |
| English2.RescanBlankStep | liv_code/Data-Processing-ForMoodle-TABText/processors/english_2.py:278-280 | a cell with the placeholder is rescanned as its rewritten self with one more blank, and the rewrite removes `$` signs |
| English2.RescanDropStep | liv_code/Data-Processing-ForMoodle-TABText/processors/english_2.py:296-298 | a cell with a `$` but no placeholder and no tag is rescanned as itself without its `$` signs, which are then fewer |
| English2.RescanCountsBlank | liv_code/Data-Processing-ForMoodle-TABText/processors/english_2.py:278-279 | a cell holding the placeholder counts at least one blank |
| English2.BlankHasDollar | liv_code/Data-Processing-ForMoodle-TABText/processors/english_2.py:275-278 | a text holding the placeholder holds a `$`, so the rescanning loop is entered |
| English2.TokenPhaseExtends | liv_code/Data-Processing-ForMoodle-TABText/processors/english_2.py:308-336 | phase two only adds to the tokens |
| English2.QuestionPhaseClean | liv_code/Data-Processing-ForMoodle-TABText/processors/english_2.py:259-305 | every question part is text without `$` |
| English2.NotgoodTextClean | liv_code/Data-Processing-ForMoodle-TABText/processors/english_2.py:259-341 | no token survives into the question text of an entry |
| English2.OptionLinesConcat | liv_code/Data-Processing-ForMoodle-TABText/processors/english_2.py:364-368 | the option lines of two runs of options are the first run's lines followed by the second's |
| English2.RenderTokensIgnores | liv_code/Data-Processing-ForMoodle-TABText/processors/english_2.py:352-374 | with a blank the options are ignored; without a blank and without options the answers are ignored too |
| English2.NotgoodEntriesCount | liv_code/Data-Processing-ForMoodle-TABText/processors/english_2.py:242-378 | there is at most one entry per row |
| Strings.JoinSplit | liv_code/TextEditor/delimited_file_v1.py:45-114 | joining the pieces of a split with the same non-empty separator gives back the text |
| Strings.SplitJoin | liv_code/TextEditor/delimited_file_v1.py:45-114 | splitting a join on a one-character separator gives back the pieces when no piece holds that character |
| Strings.SplitJoinNeedsOneChar | liv_code/TextEditor/delimited_file_v1.py:45-114 | with a separator of two characters, the round trip fails even though no piece holds the separator: `["xa","y"]` joined with `"aa"` splits back into `["x","ay"]` |

## Left out

- Non-string cells: the CSV reader yields strings only, so the `isinstance` and `str(...)` guards of `process`, `process_cloze`, `process_4gift` and `process_4gift_notgood` never change anything, and cells are `string`.
- `process_4gift_premitive` in `processors/english_2.py` and `process_4gift_backup` in `processors/english_1.py` upper-case a cell with Python's Unicode `upper()`, which is not modelled.
- Text is ASCII throughout. `strip`, `lower`, `upper`, `isdigit`, `\d`, `\s` and `re.IGNORECASE` are modelled on ASCII characters only. `int()` is modelled without underscores and without non-ASCII digits.
- RepeatTimer.ParseTime: the branch for text without a colon reads a float number of minutes and rounds it (`liv_code/Timer/timer_app-dheeraj-HP-ENVY-15-Notebook-PC-safeBackup-0001.py:114-117`). Floating point is not modelled, so that branch's outcome is a parameter.
- Reading and writing files, `print`, `logging` and the debug output; the file-existence checks and the usage messages of the command-line entry points.
- `subprocess` calls: the `hciconfig` listing arrives as its lines, after `splitlines`. The `udevadm` vendor lookup, `require_root`, the `hciconfig <name> down` commands (modelled as the list of names taken down) and the reboot prompt are left out.
- The Windows calls (`GetLastInputInfo`, `GetTickCount`, `SetSuspendState`, `SendMessageW`, `mouse_event`) and `time.sleep`: each poll's readings are inputs, and the loops run over a finite sequence of polls.
- SleepWatcher.IdleMs: the idle time is in integer milliseconds, not the float `idle_ms / 1000.0`. Ticks are unbounded integers, so the 32-bit wrap-around of `GetTickCount` is not modelled, in either watcher.
- Whether the sleep request succeeded: the loop does the same thing either way, so it is not modelled.
- Tk, `winsound` and `messagebox`: the window, its DPI-aware resize, the alarm sound and the error dialogs. Tk's scheduler is replaced by recording the generation of the pending tick, and `after_cancel` by replacing it.
- DelimitedFile.CsvEditor: the Treeview is replaced by the rows it shows. `edit_cell` and `delete_rows` act on the widget's mouse position and selection, and are not modelled. The column headings and widths are not modelled either.
- DelimitedFile.CsvEditor.Save: requires the editor's invariant (at least one column, every row `col_count` long), which the constructor establishes and every edit keeps. So every row has a first cell, and the `IndexError` that `values[0]` raises on an empty row cannot happen.
- DelimitedFile.LoadAfterSave: states the round trip on the lines `save` writes. `LoadFileAfterSave` carries it through the file, which also needs no carriage return in any cell, because universal newlines end a line at `\r` (`CarriageReturnSplitsRow`). The `errors="replace"` decoding is not modelled.
- An empty delimiter is treated like no delimiter, as the `if self.delimiter` test does, so `split` with an empty separator is never reached.
- `metadata.py` is not part of this model: its two globals are the fields of `Analyzer.Metadata`.
- `get_input_output_paths` builds `Path` objects; the model builds the same paths as `/`-joined strings.
- Vocab.ProcessMcqFile: the source appends to a string block by block. The model states the result through parsed `Question` values and renders them; `BuildBlock` and `AddDistractors` follow the source's string building.
- The other scripts of the repository are not part of this model: the grammar tools, the servers, the screenshot, clipboard and keyboard tools, and the sheet pipeline's `main.py`.

## Findings

| source | as written | input that shows it | evidently intended | confidence | as-written member | corrected member |
|---|---|---|---|---|---|---|
| liv_code/Data-Processing-ForMoodle-TABText/processors/english_2.py:136-140 | the `i`-th answer column is named `{len(header) + i}Ans`, but the header grows inside the loop, so names skip | header `["a","b","c"]` and a row with two answers gives `3Ans`, `5Ans`; `4Ans` never appears | consecutive names `<len>Ans` to `<len+m-1>Ans`, numbered from the length before the loop | not executed; high | English2.AddNamesAsWrittenSkips | English2.AddNamesNames |
| liv_code/Python-Moodle-MCQ-TAB-Gift/convert_tab_gift_moodle.py:41-93 | the answer text is compared, ignoring case, with the options after they were escaped, but the answer itself is never escaped | options with `"a=b"` as option 2 and the correct column `"a=b"`: the option becomes `a\=b`, nothing matches, and the row is skipped as having no detectable answer | the answer escaped like the options before the comparison, so that an option is found by its text | not executed; medium | GiftConvert.RawAnswerMissesOption | GiftConvert.IntendedFindsText |

In both rows the models of `process_cloze_backup` and `tsv_to_gift`
(`English2.ProcessClozeBackup`, `GiftConvert.TsvToGift`) keep the behaviour as
written. The corrected definitions (`English2.AddNames`,
`GiftConvert.IntendedIndex`) stand beside them, with the intended property
proved.
