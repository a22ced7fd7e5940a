# perfcal, modelled in Dafny

perfcal keeps the event calendar of a small chorus in step with its
planning spreadsheet. It runs in four steps:

- Loaders (`tuner_events`) read events from the SingoutInfo workbook or
  from an iCalendar feed (one `.ics` file, or a `.zip` of feeds). Each
  event is keyed by its `(start, end)` pair.
- The reconciliation engine (`event_changes.comp_events`) compares a
  current collection with an optional old one and builds the changed
  set. New events go in unmarked, changed events are marked `MODIFIED`,
  and events that have disappeared are marked `CANCELLED`. Events
  entered by hand in Google Calendar (uid ending in `google.com`) are
  never cancelled.
- The changed set is written either as feed records (`cal_events`) or
  as rows of a tabular import file (`csv_events`).
- `perfcal.main` turns the command-line options into a date window, the
  loaders to run and the output file name. `makeSongInfo` builds a
  template workbook for one year: every Tuesday's rehearsal, and
  performances on the first and third Thursday of each month.

The Dafny project mirrors that structure:

- `util.dfy` (`Util`): Option/Result and the Python string operations
  used (split, join, strip, replace, `startswith`, `int()`, `%d`, `%02d`).
- `calendar.dfy` (`Calendar`): proleptic Gregorian dates, ordinals,
  weekdays and date-time order, as Python's `datetime` provides them.
- `events.dfy` (`Events`): the event dictionaries as a class `Event`
  with a value view `EventVal`, keys and their Python tuple order, and
  key sorting.
- `tuner_events.dfy` (`TunerEvents`): the loader class `Loader`. Its
  spreadsheet and feed readers are methods proved against specification
  functions of the rows and components they read.
- `event_formats.dfy` (`EventFormats`): the reconciliation as a whole
  (`Reconcile`), and the per-event feed record, tabular row and
  display-name projections.
- `event_changes.dfy` (`Changes`): the engine class `EventChanges`,
  whose methods fill the changed set in place and write the status into
  the event objects they share with the loaders.
- `feed_roundtrip.dfy` (`FeedRoundTrip`): a changed event written as a
  feed record and read back by the loader.
- `perfcal.dfy` (`Perfcal`): `last_day_of_month`, the option loop of
  `main` and the plan it leads to.
- `song_info.dfy` (`SongInfo`): the template workbook.

Times are local wall-clock date-times, the edges of the date window
included (the source's window edges carry a pytz offset; see "## Left
out"). The UTC conversion of the tabular export is a function parameter
`utc`. The workbook, the feeds, the zip archive, the environment and the
clock are parameters of the methods that read them.

Some behaviours of the code are easy to miss. The model keeps them:

- A feed record is all-day exactly when the start hour is 0. The end
  hour is not looked at (event_changes.py:116-120, `FeedRecord`).
- An end month before the start month is not an error. The window then
  ends before it starts (perfcal.py:260-264, `InvertedRangeEmpty`). The
  loaders' window test (tuner_events.py:180, 219, 353) still accepts an
  event that starts no later than the window's end and ends no earlier
  than its start, so only events spanning the whole gap between the end
  and the start are loaded (`InvertedRangeSpans`).
- A second address line without a comma raises `ValueError`: the
  unpacking `cit, st, *junk` needs at least two comma parts
  (event_changes.py:256, `SplitAddressNoComma`).
- The usage text says a `-c` value without a second letter implies
  `-l` (perfcal.py:51). The code only clears the old side
  (perfcal.py:121-127), so such a run produces no `list_events` listing
  and writes nothing; `comp_events` still prints its change listing
  (`CompOrderRules`, `OutputRule`).
- Only `e` and `i` name loaders (perfcal.py:282-309), so an old side of
  `c` or `v` loads nothing. With no old collection every current event
  is in the changed set, which is written as `.ics` or `.csv`
  (perfcal.py:268-274, `SlotsRule`, `ReconcileNoOld`).
- `overlap` returns 1 for a row whose key is already present, and the
  row is then skipped (tuner_events.py:51-58 and 214-216). The later
  duplicate-key test (tuner_events.py:222-226) therefore never fires.

## Model

| member | source | states |
|---|---|---|
| EventFormats.Reconcile | event_changes.py:163-190 | the changed set as one definition: new current events, differing common events marked Modified, unprotected gone events marked Cancelled |
| EventFormats.ReconcileAdded | event_changes.py:166-171 | a current key absent from the old side (or with no old side) is in the changed set with the current event, unmarked |
| EventFormats.ReconcileCommon | event_changes.py:173-181 | a common key is in the changed set exactly when title, venue or uniform differ (a missing uniform reads as ""), and then carries the current values marked Modified |
| EventFormats.ReconcileGone | event_changes.py:185-190 | an old-only key is in the changed set exactly when its uid does not end in "google.com", and then carries the old values marked Cancelled |
| EventFormats.ReconcileSelf | event_changes.py:163-190 | comparing a collection with itself gives an empty changed set |
| EventFormats.ReconcileNoOld | event_changes.py:166-171 | with no old collection the changed set is the current collection unchanged |
| EventFormats.ReconcileKeys | event_changes.py:163-190 | every changed key comes from one of the two sides, and no current event (all unmarked) is ever marked Cancelled |
| EventFormats.ReconcileByKey | event_changes.py:163-190 | key by key, the changed set is what the add/modify/drop rules give |
| EventFormats.ReconcileFates | event_changes.py:163-190 | every key of both sides has the fate the per-event rules give, and nothing else is in the changed set |
| EventFormats.UniView | event_changes.py:180 | `ev.get('uni', "")`: a missing uniform reads as "", a None one stays None |
| Changes.EventChanges.constructor | event_changes.py:17-31 | an empty changed set, the two loaders as given, and the venue table of the current loader |
| Changes.EventChanges.Add | event_changes.py:33-38 | the event object is stored at its key; nothing else changes |
| Changes.EventChanges.Modify | event_changes.py:58-66 | the event object is stored at its key with status Modified; its other fields are kept |
| Changes.EventChanges.Drop | event_changes.py:40-56 | a protected event is left out and left untouched; any other is stored with status Cancelled |
| Changes.EventChanges.ModifyFields | event_changes.py:174-181 | one, two or three differing fields give the same result as one call of modify; no difference changes nothing |
| Changes.EventChanges.CompareOne | event_changes.py:167-181 | one current event gets the fate CurrentChange gives, and no other event object changes |
| Changes.EventChanges.CompareCurrent | event_changes.py:166-181 | after the first loop every current event is settled by the per-event rule, and the old side's values are untouched |
| Changes.EventChanges.CompareSorted | event_changes.py:166-181 | the first loop over the sorted current keys settles every current event by the per-event rule |
| Changes.EventChanges.DropGone | event_changes.py:185-190 | after the second loop every old-only event is dropped by the rule, and keys of the current side are untouched |
| Changes.EventChanges.DropSorted | event_changes.py:184-190 | the second loop over the sorted old keys drops every old-only event by the rule |
| Changes.LoadersApart | perfcal.py:284-307 | two distinct loaders, as `main` builds one per side, share no event object and each holds distinct objects, which is what the comparison requires of its two sides |
| Changes.EventChanges.CompEvents | event_changes.py:163-212 | the changed set equals Reconcile of the two collections; the current and old collections see the written statuses exactly as Overlay says; every changed entry is the object of the side it came from |
| Changes.EventChanges.Conclude | event_changes.py:163-190 | the two loops together produce exactly Reconcile, and the changed set holds distinct objects |
| Changes.EventChanges.CalEvents | event_changes.py:76-147 | the events are visited in ascending key order, and the result is the list of feed records with its count, or the error of the first record that fails |
| Changes.EventChanges.CalWalk | event_changes.py:87-147 | walking a key order of the changed set gives the feed records of those keys in that order, or the error of the first that fails |
| Changes.CalSpecProps | event_changes.py:86-147 | the count equals the number of changed events, no file is written when it is zero, and each written record is FeedRecord of its event |
| Changes.EventChanges.CsvEvents | event_changes.py:214-296 | ascending key order, and rows and updated uniforms exactly as CsvSpec gives them |
| Changes.EventChanges.FixUniform | event_changes.py:284-285 | only the uniform of that one event is rewritten, to NewUni |
| Changes.EventChanges.OutputEvents | event_changes.py:149-161 | no file name or another extension writes nothing; ".ics" counts every changed event and changes none; ".csv" is the tabular export |
| Changes.EventChanges.OutputCal | event_changes.py:156-157 | the ".ics" branch reports the number of changed events when it succeeds |
| Changes.EventChanges.OutputCsv | event_changes.py:158-159 | the ".csv" branch exports the changed set in ascending key order: uniforms updated as CsvSpec gives, and the row count or the first error reported |
| Changes.WalkStep | event_changes.py:230-294 | one step of the tabular loop: a failing row stops it, an absence is skipped, a row is appended and its uniform fixed |
| EventFormats.FeedStatus | event_changes.py:92-98 | Cancelled gives "CANCELLED", Modified gives "CONFIRMED", and an unmarked event has no status |
| EventFormats.FeedLocation | event_changes.py:101-106 | "venue\na1\na2" when the venue is in the table, no location otherwise; an address entry not of two parts raises ValueError |
| EventFormats.DescLine | event_changes.py:109-112 | a missing tag gives no line, a None tag raises TypeError, a text tag gives prefix plus text |
| EventFormats.FeedDescription | event_changes.py:108-115 | the description fails exactly when a tag is None, and is omitted exactly when both tags are missing |
| EventFormats.FeedRecordFields | event_changes.py:100-131 | a record keeps title, uid and status; its times are dates exactly when the start hour is 0, and are then the dates of both ends |
| EventFormats.FeedRecordFails | event_changes.py:101-115 | a record fails exactly when the venue's address entry is malformed or a tag is None |
| EventFormats.RecordsProps | event_changes.py:87-136 | the records succeed exactly when every event's record does, and then they are those records in order |
| EventFormats.SplitAddressCityStateZip | event_changes.py:256-263 | "city, ST zip" gives city, state (WA spelled out as Washington) and zip |
| EventFormats.SplitAddressThreeParts | event_changes.py:256-259 | with three or more comma parts the stripped parts are city, state and zip |
| EventFormats.SplitAddressNoComma | event_changes.py:256 | a second address line without a comma raises ValueError |
| EventFormats.NewUni | event_changes.py:284-285 | a None or empty uniform becomes "- none -", any other is kept |
| EventFormats.Hour12 | event_changes.py:273 | `%I`: an hour 1..12 congruent to the hour modulo 12 |
| EventFormats.CleanStampForm | event_changes.py:273-274 | the cleaned date text is month, unpadded day, year, unpadded 12-hour clock, padded minute and lower-case am/pm |
| EventFormats.CsvRecordFields | event_changes.py:235-288 | an absence gives no row; any row has the title, type, cleaned dates, venue, "United States", empty additional and internal notes, and notes "UNIFORM:" plus NewUni |
| EventFormats.CsvRecordNoVenue | event_changes.py:246-254 | an event without a venue gets empty street, city, state and zip |
| EventFormats.NonAbsences | event_changes.py:235-236 | the keys kept for the tabular export are exactly those of non-absence events |
| EventFormats.RowsOf | event_changes.py:235-288 | `csv_record` for a venue table and UTC conversion as a row maker: an absence gives no row, and a row is given only for an event with a uniform entry |
| EventFormats.CsvEffectFrame | event_changes.py:284-285 | for any such row maker, the tabular export changes only uniforms, and only of the events it visits |
| EventFormats.CsvEffectUniforms | event_changes.py:230-294 | for any such row maker, after a successful export every non-absence event's uniform is its NewUni and absences are untouched |
| EventFormats.CsvEffectRows | event_changes.py:230-294 | for any such row maker, a successful export has one row per non-absence event, in order, each the maker's row of its event (CsvRecord's, through RowsOf) |
| EventFormats.DisplayNameProps | event_changes.py:330-345 | the listed name begins with the title, is the title alone for the venue and rehearsal/board exceptions, and names a real uniform at its end |
| EventFormats.SplitExtOf | event_changes.py:153 | `splitext` of base + "." + ext is "." + ext |
| EventFormats.LastIndexOf | event_changes.py:153 | the last position of a character, or -1 when it does not occur |
| Events.Event.constructor | tuner_events.py:229-235 | a new event object holding the given values, marked as made by the given loader |
| Events.KeyLessIsStrictTotal | event_changes.py:87 | key order (start, then end) is irreflexive, transitive and total, like Python tuple comparison |
| Events.Insert | event_changes.py:87 | inserting a new key into an ascending list keeps it ascending and adds exactly that key |
| Events.AscendingPairs | event_changes.py:87 | in an ascending key list every key is less than, and differs from, every later one |
| Events.SortKeys | event_changes.py:87 | `sorted(self.events)`: an ascending list of exactly the keys, each once |
| TunerEvents.Loader.constructor | tuner_events.py:23-49 | no input file loads nothing; a name containing ".xls" loads the workbook; any other loads the feed; flags and window are kept |
| TunerEvents.Loader.Overlap | tuner_events.py:51-85 | 1 exactly when the key is present, 2 exactly when it is absent and some stored interval overlaps, 0 otherwise; the events are unchanged |
| TunerEvents.TrimHeader | tuner_events.py:149-155 | the header with its trailing None cells removed: a prefix that ends in a named cell, everything dropped being None |
| TunerEvents.SetHM | tuner_events.py:266-275 | the date and seconds are kept; no time keeps the date-time; otherwise only hour and minute are replaced |
| TunerEvents.YearSpan | tuner_events.py:122 | the sorted pair of the start year and the end year plus one |
| TunerEvents.RowStored | tuner_events.py:198-235 | a workbook row is stored exactly when the venue is known (or the type is absences), the title is set, the key is free and it meets the window; then with title, venue, uniform and type as read |
| TunerEvents.AbsenceInterval | tuner_events.py:160-196 | a stored absence runs from 00:00:00 of its first day to 23:59:59 one day after its last (the first when blank); the window is tested before that bump; it has empty venue and type absences |
| TunerEvents.RowsEffectProps | tuner_events.py:198-235 | reading an events sheet keeps every event already stored and adds only events that meet the window with a known venue |
| TunerEvents.AbsencesEffectProps | tuner_events.py:160-196 | reading an absences sheet keeps every earlier key and adds only events that meet the window |
| TunerEvents.SheetEffectProps | tuner_events.py:138-235 | reading any sheet (missing sheets read as nothing) only extends the collection by in-window events |
| TunerEvents.YearsEffectProps | tuner_events.py:122-134 | reading all sheets of all years in the span only extends the collection by in-window events |
| TunerEvents.Loader.LoadVenues | tuner_events.py:111-118 | the venue table is filled from the venues sheet up to the first blank name |
| TunerEvents.Loader.LoadAbsences | tuner_events.py:160-196 | the events are those of the absences rows read in order |
| TunerEvents.Loader.LoadRows | tuner_events.py:198-235 | the events are those of the events rows read in order |
| TunerEvents.Loader.LoadRow | tuner_events.py:198-235 | one events-sheet row has exactly the effect RowOutcome gives: an empty date stops the sheet, a stored row adds one event, any other row changes nothing; the venue, calendar and name tables are unchanged |
| TunerEvents.Loader.DoSheet | tuner_events.py:138-235 | one named sheet of one year is read, or nothing when the workbook lacks it |
| TunerEvents.Loader.DoYear | tuner_events.py:124-134 | the sheets of one year are read in the order performances, rehearsals, board meetings, absences, each only when its flag is on |
| TunerEvents.Loader.ExcEvents | tuner_events.py:87-134 | the venue table and the events are what reading the venues sheet and every year of the span gives |
| TunerEvents.AbsHours | tuner_events.py:325-351 | in an "abs" calendar a start loses its hours and an end with a non-zero hour gains 24 minus its hour; elsewhere date-times are kept |
| TunerEvents.PrefixesExclusive | tuner_events.py:363-366 | no line starts with both tags, so each line supplies at most one |
| TunerEvents.Loader.DecodeDescription | tuner_events.py:360-366 | the uniform and the type are the rest of the last line with their tag, or "" |
| TunerEvents.DecodeLocation | tuner_events.py:368-377 | an empty location gives venue "" and no table entry; otherwise the stripped first line is the venue and the remaining lines (or [""]) its entry |
| TunerEvents.Loader.TakeEvent | tuner_events.py:357-399 | one in-window feed event: its location enters the venue table, and it is stored unless its key is taken or its type is switched off |
| TunerEvents.Loader.TakeComponent | tuner_events.py:321-399 | one feed component has exactly the effect CalStep gives |
| TunerEvents.Loader.DoCal | tuner_events.py:313-401 | the events and venue table are those of the feed read in order, and the calendar's count is the number of events stored |
| TunerEvents.CalStepProps | tuner_events.py:321-399 | one feed component keeps every stored event, adds at most one in-window event of a wanted type with a uid, and counts it |
| TunerEvents.CalEffectProps | tuner_events.py:320-401 | reading a feed keeps the first event of every key, adds only in-window events of wanted types with a uid, and counts exactly the keys added |
| TunerEvents.CalNamesProps | tuner_events.py:425-430 | the default prefixes are "tuners<yr>_" (and "tunersboardabs<yr>_" with absences on) for exactly the years of the span |
| TunerEvents.Loader.DefaultCalNames | tuner_events.py:425-430 | the loop builds exactly the default prefixes |
| TunerEvents.FirstMatchProps | tuner_events.py:434-438 | the chosen member is the first archive name starting with the prefix, and there is none exactly when no name starts with it |
| TunerEvents.AddCal | tuner_events.py:436 | an entry [member, 0] is set for the calendar name, keeping the table's order consistent |
| TunerEvents.ChosenProps | tuner_events.py:432-440 | every requested prefix that matches an archive member is chosen, mapped to its first matching member with count 0; nothing else is added; the new calendars follow the existing ones in first-request order, each once (`NewlyChosen`) |
| TunerEvents.Loader.SelectCalendars | tuner_events.py:432-440 | the calendar table is exactly what choosing each requested name gives |
| TunerEvents.Loader.ReadChosen | tuner_events.py:442-445 | every chosen calendar is read in the order it was chosen |
| TunerEvents.Loader.IcsEvents | tuner_events.py:403-447 | a ".ics" file is read as one calendar; a ".zip" chooses the requested or default calendars and reads them; the events start empty |
| FeedRoundTrip.DescriptionRoundTrip | tuner_events.py:360-366 | decoding the written description gives back the uniform and the type, for values without newlines |
| FeedRoundTrip.LocationRoundTrip | tuner_events.py:368-377 | decoding the written location gives back the venue and its two address lines |
| FeedRoundTrip.KeyRoundTrip | tuner_events.py:325-355 | a record whose start is not at hour 0 comes back under its own key |
| FeedRoundTrip.AllDayKey | tuner_events.py:325-355 | a record whose start is at hour 0 comes back with both ends at midnight of their dates |
| FeedRoundTrip.Republished | tuner_events.py:383-399 | a changed event written and read back into a free slot is stored with its title, venue, uniform and uid, and compares equal to the original |
| Perfcal.LastDayOfMonth | perfcal.py:21-23 | the same year and month with the day equal to the month's length |
| Perfcal.LastDayIsLast | perfcal.py:21-23 | the day after the result is the first day of the following month |
| Perfcal.FourAfter28 | perfcal.py:22 | four days after the 28th lies in the next month, on day 32 minus the month's length |
| Perfcal.ParseOptions | perfcal.py:92-256 | the option loop gives exactly the fold of the options over the defaults, and any settings it reaches are sane |
| Perfcal.AllKeepSane | perfcal.py:114-256 | every option keeps the settings sane: a valid current letter, a valid or no old letter, real months and years |
| Perfcal.CompOrderRules | perfcal.py:115-139 | one letter in {e,i} sets the current side and no old side; two letters need e/i then e/i/c/v; other one- or two-letter values exit with 1; longer values change nothing |
| Perfcal.FlagOptions | perfcal.py:230-247 | -a, -b, -p and -r switch off one event type each; -h (perfcal.py:150-151) exits with 0 |
| Perfcal.ExcelOption | perfcal.py:141-148 | -e accepts exactly names ending in .xlsx, with every "/" turned into a double backslash |
| Perfcal.FileOptions | perfcal.py:153-169 | -i accepts exactly .ics and .zip names, -o exactly .pdf names; others exit with 1 |
| Perfcal.OneMonth | perfcal.py:175-198 | -m with a month 1..12 selects that month of the start year |
| Perfcal.OneYear | perfcal.py:175-198 | -m with a year 2010..2099 selects the whole year |
| Perfcal.BareOther | perfcal.py:189-198 | -m with a number that is neither a month 1..12 nor a year 2010..2099 raises UserWarning |
| Perfcal.BareNotNumber | perfcal.py:189-190 | -m with a single part that is not a number raises ValueError from `int` |
| Perfcal.YearMonthStart | perfcal.py:200-205 | a "y:m" start is accepted exactly when 2010<=y<=2099 and 1<=m<=12, and otherwise raises |
| Perfcal.EndYearResetsStart | perfcal.py:216-219 | a bare year as the end of the range moves the start month back to 1 |
| Perfcal.TooManyDashes | perfcal.py:175-177 | more than one "-" in the range raises |
| Perfcal.StopsWhenAllOff | perfcal.py:257-258 | the run stops, with status 0, exactly when every event type is switched off |
| Perfcal.WindowIsMonths | perfcal.py:260-264 | the window runs from day 1 of (y1,m1) at 00:00:00 to the last day of (y2,m2) at 23:59:59 in wall-clock terms, so a wall-clock instant lies in it exactly when its month falls from (y1,m1) to (y2,m2) |
| Perfcal.InvertedRangeEmpty | perfcal.py:260-264 | an end month before the start month gives a window that ends before it starts |
| Perfcal.InvertedRangeSpans | tuner_events.py:219-221 | for an inverted range a key passes the loaders' window test exactly when it starts no later than the window's end and ends no earlier than its start, so it spans the whole gap |
| Perfcal.SlotsRule | perfcal.py:282-309 | the current side's loader goes into the first slot; the old side is loaded only when it names the other loader and the run is not listing only |
| Perfcal.OutputRule | perfcal.py:270-279 | an output file is written exactly when the run is not listing only and an old side is given: .csv for e/v, .ics for i/c; listing only means -l or -o |
| Perfcal.DefaultRangeName | perfcal.py:92-112 | without -m the window starts at the current month, ends on 31 December, and the file's base name is "events" plus the year |
| Perfcal.WholeYearName | perfcal.py:352-355 | after -m yyyy the base name is "events" plus the year plus "01", since the months are now strings |
| Perfcal.OneMonthName | perfcal.py:352-355 | after -m m the base name is "events" plus the year plus the two-digit month |
| SongInfo.TueDom | makeSongInfo.py:37-38 | a day 1..7 that falls on a Tuesday for a month starting on the given weekday |
| SongInfo.ThuDom | makeSongInfo.py:81-82 | a day 1..7 that falls on a Thursday for a month starting on the given weekday |
| SongInfo.FirstTuesday | makeSongInfo.py:11-19 | the Tuesday day computed from the weekday of 1 January is the year's first Tuesday |
| SongInfo.FirstAndThirdThursday | makeSongInfo.py:77-91 | the Thursday day computed from the weekday of the 1st is the month's first Thursday, and 14 days later is a Thursday on day 15..21 of the same month |
| SongInfo.Tuesdays | makeSongInfo.py:41-49 | the list starts at the first Tuesday, its dates lie in the year, fall on Tuesdays, are 7 days apart, and include every Tuesday of the year |
| SongInfo.PerfDays | makeSongInfo.py:77-91 | each month's first performance date is its first Thursday and the second its third Thursday, 14 days later |
| SongInfo.PerfDaysAscending | makeSongInfo.py:75-92 | the performance dates are in calendar order, month by month |
| SongInfo.Sheet.constructor | makeSongInfo.py:52-54 | a new sheet with its title and no rows |
| SongInfo.Sheet.Append | makeSongInfo.py:62 | a row is added at the end and nothing else changes |
| SongInfo.RehearsalSheet | makeSongInfo.py:52-63 | titled "<yr> Rehearsals": the header, then one rehearsal row (18:00 to 20:00, no uniform) per Tuesday in order |
| SongInfo.PerformanceSheet | makeSongInfo.py:66-92 | titled "<yr> Performances": the header, then two rows per month in month order (18:30 to 19:15, singout), 25 rows in all |
| SongInfo.MakeSongInfo | makeSongInfo.py:22-92 | both sheets of one year, with the Tuesday list the rehearsal sheet is built from |
| Calendar.DaysInMonth | perfcal.py:21-23 | the length of a month (28 to 31, leap years included) |
| Calendar.OrdinalOrder | makeSongInfo.py:44 | date order is day-number order |

## Left out

- Printing, the usage text and the change listing printed by
  `comp_events` are not modelled. They carry no behaviour.
- `event_list_pdf` is not part of this model. It is report rendering with
  floating-point page geometry and colours that depend on the clock.
  `dump_events` is also not part of this model.
- The printing of `event_changes.list_events` and
  `tuner_events.list_events` is not modelled. Only the display-name rule
  of the former is modelled (`DisplayName`), and the date formatting of
  both listings is left out.
- iCalendar object construction and byte serialisation, the line-ending
  patch, the uid generator and the shared `dtstamp` are left out. The
  model builds the per-event record; a missing uid is marked Generated,
  and `Reread` takes the generated uid as a parameter.
- Time zones are left out: pytz localisation, `astimezone`, daylight
  saving, and the UTC conversion of the tabular export (a parameter).
- Perfcal.MakePlan and Perfcal.WindowIsMonths: the window edges are
  taken as wall-clock midnight and 23:59:59. `main` builds them with
  `tzinfo=` set to the US/Pacific pytz zone, which attaches its LMT offset
  (UTC-7:53), and the loaders then convert them with `astimezone`
  (perfcal.py:260-264, tuner_events.py:30-31). So the source's window
  edges are shifted by up to 53 minutes: in standard-time months it runs
  from 23:53:00 on the day before to 23:52:59 on the last day, in
  daylight-time months from 00:53:00 on the first to 00:52:59 on the day
  after the last day. Events near the month edges can fall on the other
  side of the window in the source; the model does not capture this.
  TunerEvents.YearSpan, Loader.ExcEvents and Loader.IcsEvents inherit
  the shift: when the window starts in January (every `-m yyyy`, every
  `-m yyyy:1...`, and the default run in January), the source's
  `fromdate` falls on Dec 31 of the year before, so its year span
  (tuner_events.py:122, 422) starts one year earlier. The source then
  also reads the previous year's Performances, Rehearsals, board mtgs and
  absences sheets, and without `-s` also selects and reads the
  `tuners<year-1>_` and `tunersboardabs<year-1>_` calendars, so their
  calendar table and order hold those entries too. The model takes the
  span from the wall-clock window and reads neither; for example an
  absence row of the previous year's sheet running from Dec 28 to Jan 5
  is loaded by the source and not by the model.
- File, workbook, zip and cell I/O is left out: openpyxl, msoffcrypto
  with the SIPW variable, ZipFile, open/write and DictWriter. The
  workbook, the feed and the archive are given as values.
- `mdydate` and `dtdate` exception paths and `strptime` parsing are left
  out. Cells arrive as parsed date-times.
- getopt, `sys.exit`, the `os.fsencode` colon fix and the dead
  `if False:` block of `main` are left out. The options arrive as a list
  of (name, argument) pairs, and exits are Stop values.
- The `field` argument of `modify` only feeds a printed message, so it is
  left out.
- Util.ParseInt: Python's `int()` also accepts underscores between
  digits and non-ASCII decimal digits. The model accepts only the ASCII
  digits 0-9, after stripping whitespace and an optional sign.
- SongInfo.Tuesdays: requires a year from 1 to 9998. For 9999 the
  source builds `date(10000, 1, 1)`, which raises, and for a year below 1
  `date(yr, 1, 1)` (makeSongInfo.py:32) raises.
- SongInfo.MakeSongInfo: the command-line choice of the year (`sys.argv`
  or today) is modelled as `ChooseYear`, without a contract.
- SongInfo.MakeSongInfo and SongInfo.PerformanceSheet: saving the
  workbook is left out, and so are the number formats that openpyxl
  attaches on its own to the date and time cells; the script sets none
  itself.
- TunerEvents.Component and TunerEvents.CalStep: a feed VEVENT without
  UID, DTSTART or DTEND, or an in-window one without LOCATION or SUMMARY,
  raises KeyError in `do_cal` (tuner_events.py:322, 325, 339, 369, 379).
  The model's components always carry these fields, so that error path
  is not modelled.
- Changes.EventChanges.CalEvents: the file is not written. The record
  list stands for it, and `None` stands for "no file".
