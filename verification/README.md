# WhatsApp chat analytics, modelled in Dafny

This project models the core of a small WhatsApp chat analyser. There are
two parts.

**The loader (`src/whatsapp_loader.py`).** `leer_log_whatsapp` reads an
exported chat one line at a time:
- It strips each line and matches it against one regular expression.
- The expression yields four groups: date, time, author and text.
- Lines whose author is longer than 50 characters are dropped.
- `_convertir_fechahora` turns the date and time texts into `date` and
  `time` values. It tries five date formats and five time formats with
  `datetime.strptime` and keeps the first that succeeds.
- A line becomes a `Mensaje` only when both texts parse.

**The statistics (`src/whatsapp_utiles.py`).** These take a list of
`Mensaje` values and compute:
- the date range;
- a filter between two optional dates;
- message counts by author, by hour and by weekday name (`DIAS_SEMANA`);
- the mean text length by author;
- the busiest day;
- each author's "distinctive words": a `Counter` that adds the author's
  words and subtracts everyone else's, cut to `most_common(n)`.

The Dafny modules follow that structure:

| module | file | what it holds |
|---|---|---|
| `Regex` | regex.dfy | a backtracking matcher with the match priority of Python's `re`: greedy and lazy repeats, optional parts, groups, `$` |
| `LinePattern` | line_pattern.dfy | the loader's expression written for that matcher, and an independent left-to-right scanner for the same four groups |
| `Strptime` | strptime.dfy | `datetime.strptime` for the directives the formats use (`%d %m %Y %y %H %I %M %S %p`), the date and time format lists, and `_convertir_fechahora` |
| `Calendar` | calendar.dfy | proleptic Gregorian dates, `toordinal`, `weekday`, date order |
| `Chars` | chars.dfy | whitespace, `strip`, `split`, `lower`/`upper`, dropping the dots |
| `Counters` | counters.dfy | `collections.Counter` as an insertion-ordered association list: `update`, `subtract`, `most_common` |
| `Messages` | messages.dfy | `Mensaje` and `DIAS_SEMANA` |
| `Loader` | loader.dfy | `leer_log_whatsapp` over the lines of the file |
| `Stats` | stats.dfy | the functions of `whatsapp_utiles.py` and the module's closing example |
| `LineCases`, `StatsCases` | line_cases.dfy, stats_cases.dfy | worked examples: particular chat lines, and the message lists of `src/whatsapp_utiles_test.py` |

Two behaviours of the code go beyond what its comments say. The model
follows the code.
- `calcula_rango_fechas` asks for a chronological list and promises the
  first and the last message's dates, which is what it returns
  (`Stats.DateRangeSorted`). What its docstring does not mention is that it
  reverses the caller's list in place (`Stats.DateRangeInPlace`).
  `Stats.DateRangeUnsorted` shows what happens outside the documented
  precondition: on a list that is not chronological, the pair can come out
  in the wrong order.
- The loader's expression accepts an upper-case `A`/`P` but only a
  lower-case `m`. So in `10:30 PM - Juan: hola` the time group is just
  `10:30`, and `PM - Juan` becomes the author
  (`LineCases.CapitalMarkerGroups`).

## Model

| member | source | states |
|---|---|---|
| LinePattern.MatchLineScan | src/whatsapp_loader.py:20-23 | on a line without a newline, the backtracking matcher and the independent scanner give the same four groups, or both none |
| LinePattern.ScanLineAuthor | src/whatsapp_loader.py:21-22 | the author starts where the decoration `\]?:?[\s-]*` after the time group ends, and the lazy `(.*?)` runs from there to the next colon followed by whitespace; the text is everything after that colon and one whitespace character |
| LinePattern.AuthorStartShape | src/whatsapp_loader.py:21 | what lies between the time group and the author is an optional `]`, an optional colon and whitespace or dashes, and the author's first character is neither whitespace nor a dash |
| LineCases.TwoColonsGroups | src/whatsapp_loader.py:20-23 | in `1/2/24, 10:30: Juan: hola` the decoration takes the colon after the time, so the author is `Juan` and the text is `hola` |
| LineCases.TwoColonsMessage | src/whatsapp_loader.py:32-47 | that line loads as a message by `Juan` at 10:30 on 2024-02-01 |
| LineCases.NoAuthorGroups | src/whatsapp_loader.py:20-23 | in `1/2/24, 10:30: hola` the optional colon gives its colon back, so the author is empty and the text is `hola` |
| LineCases.CapitalMarkerGroups | src/whatsapp_loader.py:21 | in `12/25/24, 10:30 PM - Juan: hola` the meridiem part does not match `PM`, so the time is `10:30` and the author is `PM - Juan` |
| LineCases.SmallMarkerGroups | src/whatsapp_loader.py:21 | in `12/25/24, 10:30 pm - Juan: hola` the time group takes ` pm` and the author is `Juan` |
| LineCases.CapitalMarkerMessage | src/whatsapp_loader.py:32-47 | that upper-case line still loads, as a message at 10:30 on 2024-12-25 whose author is `PM - Juan` |
| LineCases.SmallMarkerMessage | src/whatsapp_loader.py:32-47 | the lower-case line loads as a message at 22:30 on 2024-12-25 by `Juan` |
| Loader.ParseLine | src/whatsapp_loader.py:43-44 | no message that is kept has an author longer than 50 characters |
| Loader.ParseLineAccepts | src/whatsapp_loader.py:32-47 | a line yields a message if and only if its stripped text is non-empty, matches, has an author of at most 50 characters, and has a date and a time that both parse. The message is built from exactly those four groups |
| Loader.ParseLineAuthor | src/whatsapp_loader.py:21-47 | a message's author starts where the decoration after the time group ends and runs to the next colon-and-whitespace, which it never holds; the text is what follows that colon and one whitespace character |
| Loader.BlankLine | src/whatsapp_loader.py:33-35 | a line of whitespace only yields no message |
| Loader.LoadLinesAccepted | src/whatsapp_loader.py:32-47 | the result has exactly one message per accepted line, in input order, and each is that line's message |
| Loader.LoadAppend | src/whatsapp_loader.py:32-47 | loading two blocks of lines gives the first block's messages followed by the second block's |
| Loader.ConcatReadLines | src/whatsapp_loader.py:27 | splitting the file text into lines loses and adds nothing: joining the lines back gives the text |
| Loader.StripOneLine | src/whatsapp_loader.py:33 | a stripped line read from the file has no newline left |
| Loader.LoadText | src/whatsapp_loader.py:5-49 | every message read from a file has an author of at most 50 characters |
| Chars.Strip | src/whatsapp_loader.py:33 | `strip()` returns a contiguous piece of the line, with only whitespace removed on either side and no whitespace left at either end |
| Chars.StripEmpty | src/whatsapp_loader.py:34-35 | a stripped line is empty if and only if the line was all whitespace |
| Chars.WordsShape | src/whatsapp_utiles.py:150 | every word `split()` returns is non-empty and holds no whitespace |
| Chars.WordsJoinSpace | src/whatsapp_utiles.py:150 | splitting words joined by single spaces gives the words back |
| Chars.WordsCons | src/whatsapp_utiles.py:150 | a non-empty run without whitespace, followed by whitespace or by nothing, is split off as the first word, and the rest is split on its own |
| Chars.WordsSplitAt | src/whatsapp_utiles.py:150 | any whitespace character splits the text in two, and the words of the whole are the words of each side; with `Chars.WordsCons` this fixes `split()` on every text, whatever its runs of whitespace |
| Strptime.FirstParse | src/whatsapp_loader.py:79-92 | the result is that of the first format under which the text parses, and none only when no format parses it |
| Strptime.FirstParseAt | src/whatsapp_loader.py:79-92 | when format `k` parses and every earlier one fails, format `k` decides the result |
| Strptime.ParseDateDayMonthYear | src/whatsapp_loader.py:57-84 | every valid date written zero-padded as dd/mm/yyyy parses back to that date |
| Strptime.ParseDateMonthDayYear | src/whatsapp_loader.py:57-84 | every valid date with a day of 13 or more, written mm/dd/yyyy, fails `%d/%m/%Y`, `%d/%m/%y` and `%m/%d/%y` (the last leaves two year digits unconverted), and `%m/%d/%Y` reads it back as that date |
| Strptime.ParseDateMonthDayYearSwapped | src/whatsapp_loader.py:57-84 | a valid date with a day up to 12, written mm/dd/yyyy, is taken first by `%d/%m/%Y`, so it comes back with day and month swapped |
| Strptime.ParseDateYearMonthDay | src/whatsapp_loader.py:57-84 | every valid date written yyyy-mm-dd parses back to that date, through `%Y-%m-%d` |
| Strptime.ParseDateChristmasLong | src/whatsapp_loader.py:57-84 | `12/25/2024` and `2024-12-25` are both 2024-12-25 |
| Strptime.ParseDateShortYear | src/whatsapp_loader.py:57-84 | every valid date from 1969 to 2068 written day/month/yy, with day and month padded to two digits or not, parses back to that date: 00-68 are read as 20xx and 69-99 as 19xx |
| Strptime.ParseDateFirstOfFebruary | src/whatsapp_loader.py:57-84 | `1/2/24` is read day-first as 2024-02-01 |
| Strptime.ParseDateMonthFirst | src/whatsapp_loader.py:57-84 | a date from 1969 to 2068 with a day of 13 or more, written mm/dd/yy, parses to that date through the month-first fallback |
| Strptime.ParseDateNoSuchDay | src/whatsapp_loader.py:57-84 | dd/mm/yy naming a day the calendar does not have is rejected by every format, so no date results |
| Strptime.ParseDateChristmas | src/whatsapp_loader.py:57-84 | `12/25/24` is read month-first as 2024-12-25 |
| Strptime.ParseDateThirtyFirstOfFebruary | src/whatsapp_loader.py:57-84 | `31/02/24` gives no date |
| Strptime.ParseDateNoSlash | src/whatsapp_loader.py:57-84 | a date text without `/` can only parse under `%Y-%m-%d` |
| Strptime.ParseDateNoDash | src/whatsapp_loader.py:57-84 | a date text without `-` is decided by the four slashed formats alone |
| Strptime.StrptimeMissing | src/whatsapp_loader.py:81 | `strptime` fails when the text lacks a literal character of the format |
| Strptime.ParseTimeHourMinute | src/whatsapp_loader.py:64-92 | every time with zero seconds written as HH:MM parses back to that time |
| Strptime.ParseTimeTwelveHour | src/whatsapp_loader.py:64-92 | `h:MM AM` and `h:MM PM` with h from 1 to 12, padded or not, parse to the 24-hour time: 12 AM is midnight, and PM adds twelve except to 12 |
| Strptime.ParseTimeMarkerSpelling | src/whatsapp_loader.py:64-92 | after cleaning, any spelling of the marker (`pm`, `p.m.`, `PM`, …) gives the same twelve-hour conversion |
| Strptime.ParseTimeMarkerIgnored | src/whatsapp_loader.py:64-92 | an hour from 13 to 23 followed by a marker fails both twelve-hour formats and is read by `%H:%M %p`, which ignores the marker |
| Strptime.ParseTimeSameClean | src/whatsapp_loader.py:73 | two time texts that clean to the same text parse the same way |
| Strptime.ParseTimeHalfPastTwo | src/whatsapp_loader.py:64-92 | `2:30 p.m.` is 14:30 |
| Strptime.ParseTimeAfterMidnight | src/whatsapp_loader.py:64-92 | `12:05 AM` is 00:05 |
| Strptime.ParseTimeMarkedAfternoon | src/whatsapp_loader.py:64-92 | `14:30 PM` is 14:30 |
| Calendar.WeekdayNextDay | src/whatsapp_utiles.py:94 | `weekday()` advances by one, modulo seven, from each day to the next |
| Calendar.FirstDayIsMonday | src/whatsapp_utiles.py:94 | 0001-01-01 is ordinal 1 and a Monday, as `date.weekday()` counts |
| Calendar.BeforeIffOrdinal | src/whatsapp_utiles.py:43-49 | comparing two dates is the same as comparing their ordinals |
| Stats.DateRange | src/whatsapp_utiles.py:9-25 | there is no range exactly when the list is empty |
| Stats.DateRangeInPlace | src/whatsapp_utiles.py:19-25 | returns the first and the last date of the list as it was, and leaves the list reversed |
| Stats.DateRangeSorted | src/whatsapp_utiles.py:9-25 | on a chronological list the pair bounds every message's date |
| Stats.DateRangeUnsorted | src/whatsapp_utiles.py:9-25 | on a list that is not chronological the pair can come out in the wrong order |
| Stats.DateRangeAgain | src/whatsapp_utiles.py:23-25 | a second call on the list the first call reversed returns the pair swapped |
| Stats.FilteredSpec | src/whatsapp_utiles.py:27-53 | a message is kept if and only if it lies within the bounds that are given, each is kept as often as it occurs, and the k-th message kept is the one at the k-th position within the bounds, so the input order is kept |
| Stats.Kept | src/whatsapp_utiles.py:46-53 | the positions within the bounds, strictly increasing, each holding a message within the bounds, and none of them left out |
| Stats.FilteredUnbounded | src/whatsapp_utiles.py:51-52 | with neither bound every message is kept, in order |
| Stats.FilteredChronological | src/whatsapp_utiles.py:27-53 | filtering a chronological list keeps it chronological |
| Stats.CountBySpec | src/whatsapp_utiles.py:55-94 | each key counts exactly the messages that have it, keys appear in first-seen order, and the counts add up to the list length |
| Stats.CountByHourRange | src/whatsapp_utiles.py:67-78 | every hour counted lies between 0 and 23 |
| Stats.CountByWeekdayNames | src/whatsapp_utiles.py:83-94 | every weekday counted is one of the seven names of `DIAS_SEMANA` |
| Stats.LengthTotalsGet | src/whatsapp_utiles.py:107-109 | an author's total is the summed text length of exactly that author's messages |
| Stats.MeanLengthAt | src/whatsapp_utiles.py:96-112 | each author in the result has messages, and the value is their total text length divided by their number |
| Stats.MeanLengthKeys | src/whatsapp_utiles.py:106-112 | the result has one entry per author, in the order of the author count |
| Stats.BusiestDay | src/whatsapp_utiles.py:115-128 | there is no busiest day exactly when the list is empty |
| Stats.BusiestDayCount | src/whatsapp_utiles.py:126-128 | the day returned occurs in the list, and the number is how many messages fall on it |
| Stats.BusiestDayBeats | src/whatsapp_utiles.py:115-128 | no day has more messages than the one returned, and a day with as many first appears later in the list |
| Stats.ScoresGet | src/whatsapp_utiles.py:146-155 | a word's score is its lower-cased occurrences in the author's messages minus those in everyone else's |
| Stats.ScoresKeys | src/whatsapp_utiles.py:146-155 | every word occurs once among the keys, in the order of its first appearance |
| Stats.DistinctiveWordsOrder | src/whatsapp_utiles.py:132-156 | the words returned are distinct and occur in the messages. They come by decreasing score, and ties are in first-seen order |
| Stats.DistinctiveWordsAll | src/whatsapp_utiles.py:156 | at most `n` words are returned, and all of them when there are fewer than `n` |
| Stats.DistinctiveWordsTop | src/whatsapp_utiles.py:132-156 | a word that is left out scores less than every word returned, or as much and first appears later in the messages |
| Stats.DemoDistinctiveWords | src/whatsapp_utiles.py:159-166 | the module's example returns `[("mundo", 2), ("hola", 1), ("python", 1)]` |
| Stats.NewYear2024IsLunes | src/whatsapp_utiles_test.py:67 | 2024-01-01 is weekday 0, named `Lunes` |
| Counters.AddAllGet | src/whatsapp_utiles.py:153-155 | `update` adds one and `subtract` takes one for each occurrence of a key, and other keys are left alone |
| Counters.TallyGet | src/whatsapp_utiles.py:65 | `Counter(xs)[k]` is the number of occurrences of `k` in `xs` |
| Counters.TallyKeys | src/whatsapp_utiles.py:65 | the keys of `Counter(xs)` are the distinct elements of `xs` in first-seen order |
| Counters.TallyTotal | src/whatsapp_utiles.py:65 | the counts of `Counter(xs)` add up to the length of `xs` |
| Counters.SortDescRanked | src/whatsapp_utiles.py:156 | sorting for `most_common` is a permutation with non-increasing counts, and equal counts keep insertion order |
| Counters.MostCommon | src/whatsapp_utiles.py:156 | `most_common(n)` returns min(n, number of keys) entries, and none when n is not positive |
| Counters.MostCommonTop | src/whatsapp_utiles.py:127-156 | the entries returned are ranked and taken from the counter, and an entry left out counts less than every entry returned, or as much and was inserted later |
| Counters.TallyTopBeats | src/whatsapp_utiles.py:126-128 | `most_common(1)` names an element no other element outnumbers, and ties go to the first one seen |
| StatsCases.RangeCase | src/whatsapp_utiles_test.py:4-13 | the range of the three January messages is 2024-01-01 to 2024-01-03 |
| StatsCases.FilterBothCase | src/whatsapp_utiles_test.py:23-27 | between 2024-01-02 and 2024-01-03 two messages are kept, those of the 2nd and the 3rd |
| StatsCases.FilterFromCase | src/whatsapp_utiles_test.py:28-30 | from 2024-01-03 on, two messages are kept |
| StatsCases.FilterUntilCase | src/whatsapp_utiles_test.py:31-33 | up to 2024-01-02, two messages are kept |
| StatsCases.FilterAllCase | src/whatsapp_utiles_test.py:34-36 | with no bounds, all four messages are kept |
| StatsCases.AuthorCase | src/whatsapp_utiles_test.py:38-48 | Usuario1 has 3 messages and Usuario2 has 1 |
| StatsCases.HourCase | src/whatsapp_utiles_test.py:50-62 | hour 10 has 2 messages, 11 and 15 have 1 each, and 12 has none |
| StatsCases.WeekdayCase | src/whatsapp_utiles_test.py:64-74 | Lunes has 2 messages, Martes has 1 and Miércoles has none |
| StatsCases.MeanLengthCase | src/whatsapp_utiles_test.py:76-85 | the means are 4.5 for Usuario1 and 10.0 for Usuario2 |
| StatsCases.BusiestCase | src/whatsapp_utiles_test.py:87-99 | the busiest day is 2024-01-02 with 3 messages, and an empty list has none |

## Left out

- File access is not modelled: opening the file, reading it as UTF-8, and
  the `FileNotFoundError` branch that prints a message and returns `[]`.
  `Loader.LoadText` starts from the file's text and `Loader.LoadLines` from
  its lines.
- Loader.ReadLines: splits only at `'\n'`. Python's text mode also turns
  `"\r\n"` and `"\r"` into line ends before `readlines` sees them.
- Chars.IsSpace: `\s`, `strip()` and `split()` use the ASCII whitespace
  set (space, `\t`, `\n`, `\v`, `\f`, `\r`, `\x1c`-`\x1f`). Python also
  counts other Unicode spaces.
- Chars.IsDigit: `\d` is `0`-`9` only. Python's `re` also accepts other
  Unicode decimal digits.
- Chars.Lower: `lower()` and `upper()` map ASCII letters only. Python
  maps every cased Unicode letter, so words with accented capitals are
  folded differently.
- Stats.MeanLengthByAuthor: the mean is an exact rational (`real`), not a
  binary float. Quotients that a float cannot hold exactly are rounded in
  Python and not here.
- Strptime.Strptime: only the directives the format lists use are
  modelled, and `%p` only with the C locale's `AM`/`PM`. Other locales,
  time zones, week numbers and the other directives are not.
- Strptime.ParseTime: only `%H:%M` and the twelve-hour forms without
  seconds have round-trip lemmas. The two formats with seconds are
  modelled but not stated separately.
- The graphical interface `src/whatsapp_gui.py` is not part of this
  model.
- The `print` of the example at the end of `whatsapp_utiles.py` is left
  out. `Stats.DemoDistinctiveWords` states the value it prints.
- Python's arbitrary-size integers and the year range 1 to 9999 of
  `datetime` are kept. Nothing in the core overflows.
