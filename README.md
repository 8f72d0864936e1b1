# Roblox player age tracker — a Dafny model

The Roblox player statistics tracker records players one at a time. Each
record holds an age, whether the player uses voice chat, and a timestamp.
Every record is appended to a backup log, `log/backup_log.csv`, which is read
back at start-up. From the records the program derives:

- a statistics report: the total, the three most common ages, the last entry,
  the voice-chat counts, the age-group counts and a per-age breakdown;
- a log view of the 50 most recent entries;
- a summary file `data/roblox_players.csv` with one row per age;
- two pie charts.

The model covers the `RobloxTracker` class of `roblox_age_statistics.py`,
minus its user interface. It has five modules.

- **`Wrappers`**: the `Option` datatype.
- **`Text`**: the parts of Python's text handling the program depends on.
  - `str.strip()` and `int()` on a string.
  - `str()` of an integer.
  - The `>w` right-alignment format.
- **`Backup`**: the backup log, modelled as `Option<seq<Row>>`. `None` is a
  file that does not exist, and a `Row` is a list of CSV fields.
  - `csv.DictReader`'s view of a row: the first row is the header; a later
    duplicate column name wins; a short row gives `None` for the columns it
    lacks; a name missing from the header raises `KeyError`.
  - The loading loop, as the method `LoadFromBackup`, proved equal to the
    function `Loaded`.
  - The round trip from appended rows back to loaded entries.
- **`Stats`**: everything derived from the entries.
  - The per-age dictionary loop, as the method `BuildAgeData`, proved equal to
    the functions `AgeData` and `DistinctAges`.
  - The stable sort behind the top-three list.
  - The age-group and voice-chat counts.
  - The ascending breakdown, the summary rows, and the recent-entries lines.
- **`Tracker`**: the class `RobloxTracker`.
  - Its fields are `entries` and `backup`, the backup log's current contents.
  - Its methods model `load_from_backup` (the constructor), `add_entry`,
    `generate_stats_report`, `update_log`, `save_all` and `generate_charts`.

The current time, `datetime.now()`, is an argument of `AddEntry`.
The age box's text and the chosen button (with or without voice chat) are
arguments too. The message boxes themselves are not modelled. For the add
action, the `AgeInput` result tells apart the cases that show different
messages; for saving and charting, `None` is the no-data case. Loading does
not report whether it stopped early, so the load messages are not told apart.

Some behaviour of the code is easy to misread; the model follows the code:

- **Log view order.** The log view lists the last 50 entries oldest first, in
  arrival order. It does not list them most recent first. `update_log` walks
  them newest first, but inserts each line at the top of the pane
  (`roblox_age_statistics.py:241-244`).
- **Voice-chat column on load.** Any value other than exactly `Yes` loads as
  "no voice chat". Such a row is not skipped (`roblox_age_statistics.py:136`).
- **Ages on load.** Loaded ages are not range-checked. Only the add action
  checks the range 0..120.
- **Short rows stop loading.** A row too short to have an `Age` field gives
  `int(None)`, which raises `TypeError`. The inner `except` does not catch it,
  so loading stops there and keeps the entries read so far.
  Inside the loading loop, only a non-integer age (`ValueError`) or a column
  missing from the header (`KeyError`) skips just that row.
- **Top-three ties.** Ages with equal counts are ordered by first appearance,
  because the dictionary is insertion-ordered and `sorted` is stable.

## Model

| member | source | states |
|---|---|---|
| Text.Strip | roblox_age_statistics.py:149 | `strip()` leaves no white space at either end and never lengthens the text |
| Text.StripBlank | roblox_age_statistics.py:149-151 | `strip()` gives the empty text exactly when the input is all white space |
| Text.StripIdempotent | roblox_age_statistics.py:149 | stripping twice is the same as stripping once |
| Text.ParseIntSameStrip | roblox_age_statistics.py:153 | texts that strip to the same thing read as the same integer, or both fail |
| Text.ParseInt | roblox_age_statistics.py:153 | `int()` on text: a result exists only for text with something other than white space; its sign agrees with a leading `-` |
| Text.ParseIntStripped | roblox_age_statistics.py:149-153 | stripping before `int()` does not change what `int()` returns |
| Text.TrimLeftSkipsSpaces | roblox_age_statistics.py:153 | leading white space is ignored when reading an integer |
| Text.Str | roblox_age_statistics.py:166 | `str(n)` neither starts nor ends with a space, and starts with `-` exactly for negative `n` |
| Text.NatStr | roblox_age_statistics.py:166 | the digits of a natural number: non-empty, all digits, one digit exactly below 10, and a leading `0` only for 0 itself (no leading zeros) |
| Text.DigitsValueOfNatStr | roblox_age_statistics.py:166 | the value of the printed digits of `n` is `n` |
| Text.ParseStr | roblox_age_statistics.py:166 | `int(str(n)) == n` for every integer `n` |
| Text.RightAlign | roblox_age_statistics.py:243 | the `>w` format: width `max(w, len)`, the value at the right end, spaces before it, never truncated |
| Text.ParseRightAligned | roblox_age_statistics.py:243 | a right-aligned integer reads back as the same integer |
| Backup.DataRow | roblox_age_statistics.py:159-166 | the row appended for an entry has the header's three columns |
| Backup.DataRows | roblox_age_statistics.py:166 | the rows appended for a list of entries match it one for one, in order |
| Backup.Lookup | roblox_age_statistics.py:131-137 | `row[key]` under `DictReader`: `KeyError` exactly when the header lacks the key; `None` exactly when the key's column lies past the end of the row; otherwise the field under the key's last column |
| Backup.VcText | roblox_age_statistics.py:159 | the voice-chat column is `Yes` exactly for a player with voice chat |
| Backup.ReadRowSpec | roblox_age_statistics.py:134-141 | reading one row: it stops the loop exactly when it is non-empty and too short to reach the header's `Age` column; a parsed row has the `VC` and `Timestamp` columns in its header and the age `int()` reads from its `Age` field; a skipped row lacks a column in the header or has an `Age` field `int()` rejects |
| Backup.ScanStepSpec | roblox_age_statistics.py:132-141 | one turn of the loading loop keeps what was read and adds at most one entry; after a stop nothing changes; otherwise the loop stops exactly on a non-empty row too short for `Age`, and an added entry has the age `int()` reads from that row's `Age` field |
| Backup.ScanRowsBound | roblox_age_statistics.py:132-139 | reading the rows after the header yields at most one entry per row |
| Backup.LoadedBound | roblox_age_statistics.py:123-146 | loading a log yields fewer entries than it has rows, since the header yields none |
| Backup.LoadFromBackup | roblox_age_statistics.py:123-146 | the loading loop returns exactly `Loaded(file)`: no entries for a missing file; otherwise the rows after the header, read in order, until the first row that stops the loop |
| Backup.StoppedStays | roblox_age_statistics.py:144-146 | once the loop has stopped, later rows add nothing |
| Backup.ReadLoggedColumns | roblox_age_statistics.py:134-141 | a three-column row under the logged header. When its age is an integer, it gives an entry with that age (no range check), voice chat exactly when the column is `Yes`, and the timestamp. Otherwise the row is skipped |
| Backup.ReadDataRow | roblox_age_statistics.py:134-137 | a row written for an entry reads back as that same entry |
| Backup.ScanAppend | roblox_age_statistics.py:132-139 | reading one more row is exactly one more turn of the loop |
| Backup.ScanSkipsRow | roblox_age_statistics.py:140-141 | a row the loop skips adds nothing to what has been read |
| Backup.ScanWrittenRows | roblox_age_statistics.py:132-139 | under any header that reads every written row back, the rows written for a list of entries read back as that list, without stopping |
| Backup.ScanDataRows | roblox_age_statistics.py:132-139 | under the logged header, the rows written for a list of entries read back as that list, without stopping |
| Backup.LoadAfterHeader | roblox_age_statistics.py:131-132 | a log starting with the header loads as the reading of the rows after it, and is loadable exactly when that reading does not stop |
| Backup.BadAgeSkipped | roblox_age_statistics.py:135-141 | a logged row whose age is not an integer is skipped |
| Backup.ScanSkipsBetween | roblox_age_statistics.py:132-141 | a skipped row among written rows drops out, and the rows before and after it are all read, in order |
| Backup.ScanConcat | roblox_age_statistics.py:132-139 | rows are read in file order: reading two parts of a file in turn gives the first part's entries, then the second's |
| Backup.LoadAppended | roblox_age_statistics.py:161-166 | appending an entry's row to a loadable log, after the header when the log is new, keeps it loadable, and loading then gives one more entry, at the end |
| Backup.LoadRoundTrip | roblox_age_statistics.py:132-139 | a log of the header followed by the rows of `es` loads back exactly as `es` |
| Backup.LoadEmpty | roblox_age_statistics.py:125-127 | a missing log, or one holding only the header, loads as no entries |
| Backup.LoadSkipsMalformed | roblox_age_statistics.py:135-141 | a row whose age is not an integer, anywhere among written rows, is skipped, and all the other rows still load, in order |
| Stats.AgeCountSplit | roblox_age_statistics.py:191-195 | the count of an age is the count with voice chat plus the count without, and is positive exactly when the age occurs |
| Stats.AgeGroupsCoverAll | roblox_age_statistics.py:200-202 | young + teen + adult + (players under 6) = all players |
| Stats.VoiceChatSplit | roblox_age_statistics.py:204-205 | players with voice chat + players without = all players, so `total - vc_yes` counts the players without |
| Stats.CountWhere | roblox_age_statistics.py:200-205 | `sum(1 for e in entries if p(e))` is at most the number of entries, and 0 exactly when no entry satisfies `p` |
| Stats.CountedSpec | roblox_age_statistics.py:189-195 | one turn of the aggregation loop adds the entry's age as a key, adds one player to it, leaves every other age alone and keeps the map consistent |
| Stats.DistinctAges | roblox_age_statistics.py:188-191 | the dictionary's keys in insertion order hold no age twice |
| Stats.FirstIndex | roblox_age_statistics.py:189-191 | the index of an age's first entry: every earlier entry has another age |
| Stats.DistinctAgesPrefix | roblox_age_statistics.py:189-191 | the keys inserted for a prefix of the entries are a prefix of all the keys: insertion never reorders them |
| Stats.NewAt | roblox_age_statistics.py:189-191 | the first entry of an age appends that age as the next key |
| Stats.PosFirst | roblox_age_statistics.py:189-191 | an age that occurs sits in the key list at the number of keys inserted before its first entry |
| Stats.KeysGrow | roblox_age_statistics.py:189-191 | between an age's first entry and a later point at least one new key has been inserted |
| Stats.DistinctAgesOrder | roblox_age_statistics.py:189-191 | of two ages that occur, the one first recorded earlier comes first in the dictionary's key order, and only then |
| Stats.AgeDataKeys | roblox_age_statistics.py:188-191 | the per-age map and the insertion-ordered key list have exactly the same keys |
| Stats.DistinctAgesSpec | roblox_age_statistics.py:188-191 | an age is a key exactly when it occurs among the entries; the key list and the map have the same keys |
| Stats.AgeDataCounts | roblox_age_statistics.py:189-195 | each age's `total`, `vce` and `vcd` are its number of players, with voice chat, and without |
| Stats.TotalOfAgeData | roblox_age_statistics.py:191 | the `total` seen for an age, 0 for a missing key, is that age's count |
| Stats.SumTotalsAgeData | roblox_age_statistics.py:188-195 | the totals over all keys add up to the number of entries |
| Stats.AgeDataConsistent | roblox_age_statistics.py:188-195 | the keys are exactly the ages that occur, once each; for every key, `total = vce + vcd > 0`; and the totals add up to `len(entries)` |
| Stats.AgeDataAfterAdd | roblox_age_statistics.py:189-195 | one more entry adds one player to its own age only, counted with or without voice chat as recorded; no other age changes |
| Stats.BuildAgeData | roblox_age_statistics.py:188-195 | the in-place `defaultdict` loop, which `save_all` repeats at lines 253-259, builds exactly `AgeData(entries)`, with keys in first-appearance order |
| Stats.InsertByTotal | roblox_age_statistics.py:197 | one step of the stable sort adds exactly the one key, keeping the others |
| Stats.SortByTotal | roblox_age_statistics.py:197 | the sort reorders the keys: same length, same members |
| Stats.InsertBehind | roblox_age_statistics.py:197 | inserting behind a first key whose total is at least as large keeps the ranking, given that the insertion keeps it among the remaining keys |
| Stats.InsertInFront | roblox_age_statistics.py:197 | a key whose total is larger than the first key's goes in front and keeps the ranking |
| Stats.InsertRanked | roblox_age_statistics.py:197 | inserting a key that comes after every ranked key in dictionary order keeps the ranking: totals descending, ties by dictionary order |
| Stats.SortByTotalRanked | roblox_age_statistics.py:197 | the sorted keys run from highest total to lowest, and equal totals keep their original order (a stable sort) |
| Stats.TopThree | roblox_age_statistics.py:197-198 | the top-three list has `min(3, #keys)` ages |
| Stats.TopThreeRanked | roblox_age_statistics.py:182-198 | the top-three list holds `min(3, #distinct ages)` ages, all of which occur. Each is more common than the ones after it, and than every age left out. Equal counts go to the age recorded first |
| Stats.SortAscending | roblox_age_statistics.py:266 | sorting the keys: same length, same members, strictly ascending when the keys are distinct |
| Stats.InsertAscending | roblox_age_statistics.py:266 | one step of sorting the keys adds exactly one key and keeps distinct keys strictly ascending |
| Stats.RowsOf | roblox_age_statistics.py:266-268 | one `(age, counts)` row per key, in the given order, with the dictionary's counts |
| Stats.Breakdown | roblox_age_statistics.py:230 | `sorted(age_data.items())`, also walked at line 266: one row per key, the ages being exactly the keys, strictly ascending for distinct keys |
| Stats.BreakdownSpec | roblox_age_statistics.py:266-268 | the per-age rows: one for each age that occurs, and no other; strictly ascending by age; each with that age's player counts with and without voice chat |
| Stats.WriteSummary | roblox_age_statistics.py:265-268 | the writer loop writes the header row, then exactly one summary row per breakdown row, in the same order |
| Stats.SummaryRow | roblox_age_statistics.py:268 | a summary row has the summary header's four columns |
| Stats.SummaryRowReadsBack | roblox_age_statistics.py:268 | each column of a summary row reads back as the age, total, `vce` and `vcd` it was written from |
| Stats.Recent | roblox_age_statistics.py:240 | `entries[-50:]`: `min(50, len)` entries, exactly the last ones, in order |
| Stats.LogLine | roblox_age_statistics.py:243 | a log line holds at least the two width-3 fields, two separators and the timestamp, and ends with a newline |
| Stats.Line | roblox_age_statistics.py:243 | the three fields joined by the two separators and ended by a newline: its length is the fields' lengths plus seven |
| Stats.LogText | roblox_age_statistics.py:241-244 | the pane text is empty exactly when there are no entries, and holds at least one full line per entry |
| Stats.LogTextConcat | roblox_age_statistics.py:241-244 | the pane text of two runs of entries is the first run's text followed by the second's |
| Stats.NatStrShort | roblox_age_statistics.py:243 | a number below 1000 prints in at most three characters |
| Stats.LineSlices | roblox_age_statistics.py:243 | a line built from two three-character fields and the timestamp cuts back into the age field, the separator, the voice-chat field, the separator, the timestamp and the newline |
| Stats.AgeField | roblox_age_statistics.py:243 | an age of at most three characters fills the width-3 field exactly and reads back as the same age |
| Stats.VcField | roblox_age_statistics.py:242-243 | the voice-chat field is `Yes` or ` No` |
| Stats.LogLineFields | roblox_age_statistics.py:242-243 | for ages of at most three characters, a log line is: an age field of width 3 that reads back as the age, the separator, `Yes` or ` No`, the separator, the timestamp, and a newline |
| Tracker.ReadAge | roblox_age_statistics.py:149-156 | the age box is classified as blank (all white space), not a number (`int()` fails), out of range (below 0 or above 120), or valid (0..120, the value `int()` gives) |
| Tracker.ReadAgeOfInteger | roblox_age_statistics.py:153-156 | a printed integer is accepted exactly when it lies in 0..120; otherwise it is refused as out of range |
| Tracker.RobloxTracker.constructor | roblox_age_statistics.py:123-146 | at start-up the entries are what loading the backup log gives; a loadable log leaves the tracker in step with its log |
| Tracker.RobloxTracker.AddEntry | roblox_age_statistics.py:148-173 | refused input changes neither the entries nor the log. Accepted input appends exactly one entry `(age, has_vc, timestamp)` and exactly one log row, after the header only when the log did not exist. A tracker in step with its log stays in step |
| Tracker.RobloxTracker.GenerateStatsReport | roblox_age_statistics.py:181-234 | with no entries exactly the no-data message, and only then. Otherwise the figures are: the total; the last entry; the stable top three; the counts with and without voice chat; the young, teen and adult counts; and the ascending breakdown built by the aggregation loop |
| Tracker.RobloxTracker.UpdateLog | roblox_age_statistics.py:236-246 | inserting the lines newest first, each at the top, gives the last 50 entries' lines oldest first |
| Tracker.RobloxTracker.SaveAll | roblox_age_statistics.py:248-268 | with no entries nothing is written, and only then. Otherwise the file is the header, then one summary row per breakdown row, in ascending age order |
| Tracker.RobloxTracker.GenerateCharts | roblox_age_statistics.py:273-296 | with no entries nothing is drawn, and only then. Otherwise the slice sizes are the young, teen and adult counts, which with the under-six count make up every player, and the counts with and without voice chat, which add up to every player |
| Tracker.Recorded | roblox_age_statistics.py:148-168 | a series of add actions records at most one entry per action, every one with an age in 0..120 |
| Tracker.RestartAfterAdds | roblox_age_statistics.py:148-168 | after any series of add actions from a fresh start, the tracker holds exactly `Recorded(...)`, one entry per accepted action in order, and restarting loads back exactly those entries |

## Left out

- The tkinter user interface is not modelled: widgets, theme, the Enter-key
  warning, message boxes, and `update_stats` copying the report into the
  text pane. These are presentation only.
- Real file-system calls are not modelled: `os.path.exists`, `open`,
  `os.makedirs`, and the `OSError` they may raise. The backup log and the
  summary file are values; a missing backup log is `None`.
- `csv` quoting and line splitting are not modelled. A file is its list of
  rows of fields.
- The outer `except` of `load_from_backup` is modelled only for the
  `TypeError` that a short row causes. That error stops loading. Decoding
  and reading errors are not modelled, since they belong to the file system.
- The charts themselves, drawn and saved by matplotlib, are not modelled,
  because matplotlib is a foreign library. Only the slice sizes are.
- `datetime.now()` is not modelled. The timestamp is an argument of `AddEntry`.
- The `vc_percent` figure and its `.1f` formatting are not modelled, because
  they are floating-point.
- Tracker.RobloxTracker.GenerateStatsReport: returns the report's figures
  rather than its exact text. Only the no-data message is exact text. The
  top three is a list of ages rather than the comma-joined text.
- Text.ParseInt: models Python's `int()` for ASCII decimal digits with an
  optional sign and surrounding white space. It does not accept underscores
  between digits (`1_0`) or non-ASCII decimal digits, which Python also
  accepts. It ignores as surrounding white space everything `strip()`
  removes, while CPython's `int()` rejects the separators U+001C to U+001F
  in an otherwise ASCII text, which matters only for loaded fields because
  the add action strips its input first. It also has no limit on the number
  of digits, while Python 3.11 and later reject texts of over 4300 digits
  (so an age typed with thousands of leading zeros is refused there).
- Backup.ReadRow: a `None` timestamp (a row too short to reach the
  `Timestamp` column) is kept as the text `None`, which is how the program
  displays it. The Python value `None` is a distinct object whose only use
  here is being formatted.
- Stats.LogLineFields: covers ages of at most three characters, which
  includes every age the add action accepts. Wider loaded ages overflow the
  field, as `>3` never truncates; `Text.RightAlign` states that case.
- `save_and_exit` and the window-close handling are not modelled. They only
  call `save_all` and close the window.
