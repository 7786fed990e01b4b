# almanac calendar-state engine, in Dafny

This project models the calendar-state engine of the `alm` terminal calendar (`src/main.c`) and proves properties of the model. The engine has four parts:

- **Date arithmetic.** It computes the number of days in a month, the leap-year rule, and the weekday column of the first day from a closed-form congruence. No platform date library is involved.
- **The `Calendar` table.** A fixed array of 31 `Date` records plus the month header. `populate_dates`, `add_sig_date` and `remove_sig_date` update it in place.
- **The save-file codec.** `split_by_delim` cuts a NUL-terminated buffer in place. The load loop of `slurp_sig_dates` decodes `DD;note` lines and applies the day filter. The write loop of `save_new_sig_dates` encodes the noted days.
- **The grid of `print_calendar`.** Leading blanks, a new row every seven columns, one highlight per day, and the reminder line for today.

## Modules

- `wrappers.dfy` (`Wrappers`): `Option`.
- `gregorian.dfy` (`Gregorian`): an independent reference calendar. It counts days year by year and month by month, and serves as the reference against which the program's arithmetic is checked.
- `datemath.dfy` (`DateMath`): `is_leap_year`, `days_in_month` (with the `30 | ((m & 1) ^ (m >> 3))` bit trick on a byte) and `first_dow_zeller`. The latter uses C's truncating `/` and `%` (`CDiv`, `CMod`), which matter for the year -1 that January of year 0 produces.
- `cstring.dfy` (`CString`): NUL-terminated buffers, plus the C library calls the engine makes:
  - `strchr` and `strlen` on an `array<char>`;
  - `strtol` in base 10, with a 64-bit `long`, the "C" locale, clamping to `LONG_MIN..LONG_MAX`, and an end pointer;
  - the `(size_t)` cast, as reduction modulo 2^64.
- `codec.dfy` (`LineCodec`):
  - `split_by_delim` as a method over an `array<char>` that writes NULs in place;
  - one pass of the load loop (`ReadRecord`: `fgets`, skip, newline chop, split, `strtol` and the `*endptr` test);
  - its value-level meaning `Decode`;
  - the `"%02u;%s\n"` encoding `Encode`.
- `layout.dfy` (`Layout`): the grid as rows of abstract cells: `Blank`, or `Day(n, style)` with one of four styles.
- `calendar.dfy` (`CalendarState`):
  - the dates of a month as `seq<Date>`, and the pure operations `AddNote`, `RemoveNote`, `ApplyLine`, `Load` and `Save`;
  - the save/load round trip;
  - the class `Calendar` with its `array<Date>` of 31 and the methods that follow the C functions.

The save file is a `seq<string>` of lines: reading is `Load`, writing is `Save`. A missing file is `None`. Each element stands for one read of `fgets`: at most 259 characters, with a newline only as its last character (`LineCodec.IsLine`). `LineCodec.FileReads` states it of a whole file: every element is such a read, and every element but the last either ends in its newline or fills the 259-character buffer. The methods that read a file require `FileReads`. `CalendarState.SavedLinesFit` proves that every saved line ends in its only newline and fits the buffer, and `CalendarState.RoundTrip` concludes that a saved file meets `FileReads`. A note is `Option<string>`: `None` stands both for a note that was never loaded (the filtered load passes NULL) and for no note at all. A `Date` that is not significant always has `None`.

## Behaviour of the code worth knowing

- **`first_dow_zeller` omits Zeller's day-of-month term q.** Its comment (src/main.c:83) says it gets the first weekday of a month using Zeller's congruence. Without q, it yields the weekday of the day before the 1st (0 = Sunday), that is (weekday of the 1st + 6) mod 7. The model keeps the formula exactly as written (`DateMath.FirstDowZeller`). `DateMath.ZellerIsDayBeforeFirst` proves what it computes for every year from 1 onward, against the reference calendar. `DateMath.ZellerExamples` works out January 2023 and July 2024.
- **July 2024.** With the code's column 0, July 2024 draws five rows, and the last holds days 29 to 31 (`Layout.JulyExample`).
- **The year is stored as a `uint16_t`.** The constructor keeps `year % 65536`, and the header is computed from the stored value, as in `init_calendar`.
- **Bounds in `print_calendar`.** The reminder reads `dates[curr_mday - 1]` even when today lies past `cnt_dates`, so the model reads the array there too.
- **Day field parsing.** The day field is converted by `strtol` and then cast to `size_t`. A negative day becomes a huge value that `add_sig_date` ignores (`CString.NegativeSizeTIsHuge`). An empty day field converts to 0, which `add_sig_date` also ignores (`CalendarState.EmptyDayIgnored`).

## Model

| member | source | states |
|---|---|---|
| DateMath.IsLeapYear | src/main.c:68-70 | a year not divisible by 4 is common; one divisible by 4 but not by 100 is leap; one divisible by 100 but not by 400 is common; one divisible by 400 is leap |
| DateMath.DaysInMonth | src/main.c:68-81 | 0 for a month outside 1..12; for February, 29 exactly when `is_leap_year` holds and 28 exactly when it does not; 31 for months 1, 3, 5, 7, 8, 10, 12 and 30 for 4, 6, 9, 11; equal to the reference calendar's month length for every month |
| DateMath.BitTrickTable | src/main.c:80 | for every month but February, `30 \| ((m & 1) ^ (m >> 3))` on a byte is that month's length in a common year |
| DateMath.FirstDowZeller | src/main.c:84-100 | the result is a weekday column 0..6 for every year from 0 on |
| DateMath.ZellerIsDayBeforeFirst | src/main.c:84-100 | for year >= 1 and month 1..12, the result is (reference weekday of day 1 + 6) mod 7, i.e. the weekday of the day before the 1st |
| DateMath.ZellerExamples | src/main.c:84-100 | January 2023 gives 6 (the 1st is a Sunday) and July 2024 gives 0 (the 1st is a Monday) |
| CString.StrChr | src/main.c:121 | finds c in the C string at an offset exactly when it occurs there before the terminator, at the offset of its first occurrence |
| CString.StrLen | src/main.c:283 | the length of the C string at an offset, with a NUL just after it inside the buffer |
| CString.StrToL | src/main.c:294 | the converted value lies in the range of `long` and the end offset lies within the string |
| CString.StrToLNoDigits | src/main.c:294 | with no digit to convert, the value is 0 and the end pointer is the start |
| CString.SizeT | src/main.c:294 | the cast lands in 0..SIZE_MAX and keeps every value already in that range |
| CString.NegativeSizeTIsHuge | src/main.c:294 | a negative `long` becomes a `size_t` above `LONG_MAX`, hence past any month |
| LineCodec.Split | src/main.c:104-128 | the value-level meaning of split_by_delim: when it succeeds, it yields exactly n pieces |
| LineCodec.SplitSucceedsIff | src/main.c:120-123 | splitting into n pieces succeeds exactly when the string holds at least n - 1 delimiters |
| LineCodec.SplitThenJoin | src/main.c:104-128 | the pieces glue back to the string, and none of the first n - 1 contains the delimiter |
| LineCodec.JoinThenSplit | src/main.c:104-128 | n pieces whose first n - 1 are free of the delimiter are exactly what splitting their join into n returns |
| LineCodec.SplitExample | src/main.c:105-117 | `"05;a;b"` split in two on `;` gives `"05"` and `"a;b"` |
| LineCodec.SplitByDelim | src/main.c:104-128 | succeeds exactly when the value-level split succeeds; then piece k read at linedata[k] is the split's piece k; each NUL overwrites a delimiter of the original, exactly at the cut positions, and the next piece starts just after it; for n = 2 a failure leaves the buffer unchanged |
| LineCodec.CutNext | src/main.c:120-126 | one round of the loop keeps the loop invariant and records one more piece, or stops, leaving the buffer unchanged |
| LineCodec.StripNewline | src/main.c:283-286 | exactly one trailing newline is removed, and nothing changes without one |
| LineCodec.ChopNewline | src/main.c:283-286 | the C string in the buffer loses exactly one trailing newline |
| LineCodec.Fgets | src/main.c:276-277 | for one line of the file, the fresh buffer of 260 characters reads back as the line's C string; its first character is NUL exactly for an empty line |
| LineCodec.Decode | src/main.c:279-296 | a decoded line is non-blank and holds a `;`; its note is shorter than the line and holds no NUL, and no newline when the line is one `fgets` read; its day is a `size_t` |
| LineCodec.ReadRecord | src/main.c:277-297 | one pass of the load loop over the buffer yields exactly `Decode` of the line |
| LineCodec.DecodeFields | src/main.c:288-296 | a non-blank line `day;text` with no `;` in the day field decodes to the `size_t` of the day when strtol consumes the whole field, and is skipped otherwise |
| LineCodec.DecodeNeedsDelimiter | src/main.c:289-291 | a line without `;` is skipped |
| LineCodec.DecodeSkipsNonNumeric | src/main.c:293-296 | a line whose non-empty day field has no digit is skipped (an empty field reads as day 0, see `CalendarState.EmptyDayIgnored`) |
| LineCodec.DecodeSkipsTrailing | src/main.c:296 | a line whose day field has characters after the number is skipped |
| LineCodec.DecodeUnterminated | src/main.c:277-296 | a saved line that lost its final newline (the last line of a file) still decodes to its day and note, and a `;` inside the note stays in the note |
| LineCodec.Encode | src/main.c:318 | for a day below 100: two decimal digits whose value is the day, then `;` at position 2, the note, and a final newline, in `|note| + 4` characters |
| LineCodec.Pad2Parses | src/main.c:318 | `%02u` of a day below 100 is two digits, with no `;`, NUL or newline, which strtol converts back to the day, consuming both |
| LineCodec.DecodeEncode | src/main.c:318-319 | decoding an encoded line gives back the day and the note, for a note with no newline or NUL |
| LineCodec.EncodeFitsLine | src/main.c:20 | an encoded line of a note of at most 255 characters fits `MAX_LINE_LEN` and has its newline only at the end |
| Layout.StyleOf | src/main.c:206-219 | each day gets exactly one style: today and noted, then today, then noted, then plain, each exactly under its condition |
| Layout.Blanks | src/main.c:192-194 | n blank cells |
| Layout.DayCells | src/main.c:196-222 | cell i is day i + 1 with the style its flags select |
| Layout.Chunk | src/main.c:198-204 | at least one row; rows of at most seven cells; a single row exactly when there are at most seven cells |
| Layout.Grid | src/main.c:191-222 | the rows print_calendar draws: they read back as the blanks followed by the day cells, with at most seven cells per row |
| Layout.ChunkRows | src/main.c:198-204 | no row has more than seven cells, every row but the last has exactly seven, and the last is empty only when there are no cells |
| Layout.ChunkConcat | src/main.c:198-222 | the rows read back as the cells in order |
| Layout.GridShape | src/main.c:192-222 | the grid holds first_weekday blanks and then days 1..cnt_dates in order, in ceil((first_weekday + cnt_dates) / 7) rows of 1 to 7 cells |
| Layout.GridDay | src/main.c:206-219 | day d sits at flat position first_weekday + d - 1 with its style |
| Layout.JulyExample | src/main.c:192-222 | 31 days from column 0 make five rows, the last holding days 29 to 31 |
| CalendarState.Fresh | src/main.c:230-237 | the freshly populated month: day i + 1 at index i, not significant, no note |
| CalendarState.Flags | src/main.c:207-213 | the significance flag of each day, in order |
| CalendarState.AddNote | src/main.c:137-150 | a date outside 1..cnt_dates changes nothing; otherwise that day becomes significant with the given note (None for NULL), keeping its number, and no other day changes |
| CalendarState.RemoveNote | src/main.c:152-161 | a date past cnt_dates changes nothing; otherwise that day loses significance and note, and no other day changes |
| CalendarState.AddOverwrites | src/main.c:137-150 | a second add to the same day keeps only the second note |
| CalendarState.RemoveAfterAdd | src/main.c:152-161 | removing a day just added leaves it as if it had never been noted |
| CalendarState.AddKeeps | src/main.c:137-150 | adding keeps the table well formed, loaded, free of newline notes and, for a note of at most 255 characters, within the note bound |
| CalendarState.RemoveKeeps | src/main.c:152-161 | removing keeps the table well formed, loaded, free of newline notes and within the note bound |
| CalendarState.ApplyLine | src/main.c:298-302 | a skipped line, or a decoded day of 0 or past the month, changes nothing; otherwise the decoded day becomes significant, keeping its number, with the line's text when the filter is 0 or names that day and with no note otherwise, and every other day is unchanged |
| CalendarState.EmptyDayIgnored | src/main.c:294-299 | a line with an empty day field decodes to day 0 and changes nothing |
| CalendarState.OutOfRangeIgnored | src/main.c:137-140 | a line for a day past the month changes nothing |
| CalendarState.Load | src/main.c:277-303 | reading the lines in order keeps the number of days and every day number, and never clears a significance flag |
| CalendarState.LoadAppend | src/main.c:277-303 | reading a file in two parts is reading the first and then the second |
| CalendarState.LoadKeeps | src/main.c:277-303 | loading keeps the table well formed and, with filter 0, every significant day has its note |
| CalendarState.LoadFiltered | src/main.c:298-302 | with a day filter f, no day other than f ever gets a note |
| CalendarState.FilterAgrees | src/main.c:298-302 | a filtered load marks exactly the days a full load marks, and day f comes out as in the full load, note included |
| CalendarState.Save | src/main.c:316-321 | the write loop writes at most one line per day |
| CalendarState.SaveEmpty | src/main.c:316-321 | nothing is written exactly when no day is significant |
| CalendarState.SaveSnoc | src/main.c:316-321 | one more day adds its `DD;note` line after the lines of the days before it, exactly when it is significant |
| CalendarState.SavedLinesFit | src/main.c:316-321 | every saved line ends in its only newline and fits the load buffer, so it is one `fgets` read |
| CalendarState.LoadSaved | src/main.c:316-321 | loading the saved lines with filter 0 into a fresh table of at least as many days restores the days, leaving the rest fresh |
| CalendarState.RoundTrip | src/main.c:267-324 | for newline-free notes of at most 255 characters, the saved file is a sequence of `fgets` reads (`FileReads`), and loading the saved file with filter 0 into a freshly populated month gives back the same days, flags and texts |
| CalendarState.FullLoad | src/main.c:406 | after a load with filter 0 into a fresh month, every significant day has its note, so the month can be saved |
| CalendarState.SigPersists | src/main.c:406-408 | after `alm sig` with a note of at most 255 characters (src/main.c:390 reads at most that many) on a month whose notes are within that bound, the save file is a sequence of `fgets` reads and reloads with the new note on its day and every other day unchanged |
| CalendarState.RmPersists | src/main.c:434-437 | after `alm rm` on a month whose notes have at most 255 characters, the save file is a sequence of `fgets` reads and reloads with the day not significant and every other day unchanged |
| CalendarState.DrawGrid | src/main.c:191-222 | the drawing loop produces exactly the grid of the month for first_weekday, today and the significance flags |
| CalendarState.DrawDays | src/main.c:196-222 | the loop with begin_day_idx and current_idx cuts the cells into rows of seven, opening a new row only while days remain |
| CalendarState.Calendar.constructor | src/main.c:327-341 | a zero month or year stands for the current one; the year is stored modulo 65536; cnt_dates is days_in_month (28..31), first_weekday is first_dow_zeller, and the dates are freshly populated |
| CalendarState.Calendar.PopulateDates | src/main.c:230-237 | the dates in use are numbered 1..cnt_dates and not significant, and the tail of the array is unchanged |
| CalendarState.Calendar.AddSigDate | src/main.c:137-150 | the dates become `AddNote` of the old dates, and the tail of the array is unchanged |
| CalendarState.Calendar.RemoveSigDate | src/main.c:152-161 | the dates become `RemoveNote` of the old dates, and a warning is reported exactly for a date past the month |
| CalendarState.Calendar.SlurpSigDates | src/main.c:267-305 | a missing file changes nothing; otherwise the dates become `Load` of the old dates over the file's lines |
| CalendarState.Calendar.SlurpLine | src/main.c:277-302 | one line read from the file changes the dates as `ApplyLine` says |
| CalendarState.Calendar.SaveNewSigDates | src/main.c:307-324 | the lines written are exactly `Save` of the dates |
| CalendarState.Calendar.PrintCalendar | src/main.c:178-228 | the rows drawn are the grid of the month; the reminder appears exactly when today is significant and its note is loaded, and carries that note; nothing is modified |

## Left out

- get_save_file_handle (src/main.c:239-262): HOME and `getpwuid`, `mkdir`, `snprintf` of the file name and `fopen` are file system I/O. The file is a `seq<string>` of lines; a missing file is `None`.
- The failed `fopen` in save_new_sig_dates, with its message and `exit(1)`: I/O and process exit.
- The `time`/`localtime` clock read in init_calendar: the current year, month and day are constructor parameters.
- main (src/main.c:351-452): argument parsing, reading the note from standard input and the exit messages are glue. Its one relevant fact, that a full load (filter 0) always precedes a save, is the requirement `AllLoaded` of `Save` (established by `CalendarState.FullLoad`). Its `sig` and `rm` flows are stated by `CalendarState.SigPersists` and `CalendarState.RmPersists`.
- printf output: the month and year title, the weekday names (MONTHS and WEEKDAYS), ANSI colour codes, `warn_date_doesnt_exist` and `print_sig_date_note`. These are terminal output; styles are the `Layout.Style` values.
- malloc, free, strcpy and free_notes: a note is an `Option<string>` value.
- The uninitialised `note` left by populate_dates, and the free of that pointer in remove_sig_date: the model starts every note as `None` and does not reproduce this undefined behaviour.
- CalendarState.Calendar.RemoveSigDate: requires a date of at least 1, because remove_sig_date(0) writes `dates[-1]`.
- CalendarState.Calendar.SlurpSigDates: the file is given as its `fgets` reads, not as bytes; how `fgets` cuts the byte stream into reads is not modelled. A line longer than 259 characters appears as several reads, which `LineCodec.FileReads` admits and `Load` processes one by one.
- The unused tail of the dates array: C leaves it uninitialised in the local `Calendar` (src/main.c:331), so a reminder for a today past `cnt_dates` reads indeterminate memory. The model fills the tail with `Date(0, false, None)` and does not reproduce the undefined read.
- Characters: a Dafny `char` stands for one byte of the C buffers, so `|note| <= 255` counts bytes as the C code does; multi-byte encodings are not modelled.
- CalendarState.Save: requires every significant day to have its note loaded; with a NULL note `fprintf("%s")` is undefined.
- LineCodec.DecodeEncode: stated for days below 100 (two-digit fields) and notes without newline or NUL, the notes `alm sig` can store.
- Integer widths of the struct fields (`uint8_t` mday, month and counts): every value the engine stores fits them, so they are `nat`; only the `uint16_t` year is truncated.
- The root `main.c`: a superseded prototype with a hard-coded month.
