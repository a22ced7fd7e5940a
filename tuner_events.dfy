/** The event loader (`tuner_events`): it reads one schedule, from the
    SingoutInfo workbook or from calendar feeds, and keeps the events whose
    interval meets the requested window, keyed by `(start, end)`.

    The workbook, the feed files and the zip archive are given as values:
    a workbook is its venue rows and its sheets by name, a feed is its list
    of components, a zip archive is its list of members in archive order. */
module TunerEvents {
  import opened Util
  import opened Calendar
  import opened Events

  /** The event-type switches: absences, board meetings, performances,
      rehearsals. */
  datatype Flags = Flags(a: bool, b: bool, p: bool, r: bool)

  /** A time cell of the workbook. */
  datatype Clock = Clock(hour: int, minute: int)

  type Time = c: Clock | 0 <= c.hour < 24 && 0 <= c.minute < 60 witness Clock(0, 0)

  /** A row of an events sheet: title, venue, date, start time, end time,
      uniform and type; every cell may be empty. */
  datatype EventRow = EventRow(
    title: Option<string>,
    venue: Option<string>,
    date: Option<Instant>,
    start: Option<Time>,
    end: Option<Time>,
    uni: Option<string>,
    etype: Option<string>)

  /** A row of an absences sheet: first day, last day, description. */
  datatype AbsenceRow = AbsenceRow(start: Option<Instant>, end: Option<Instant>, desc: Option<string>)

  /** A row of the venues sheet: name and two address lines. */
  datatype VenueRow = VenueRow(name: Option<string>, line1: Option<string>, line2: Option<string>)

  datatype Sheet<R> = Sheet(header: seq<Option<string>>, rows: seq<R>)

  /** The workbook: the venue rows (below the header) and the sheets named
      like "2024 Performances"; the absences sheets have their own layout. */
  datatype Workbook = Workbook(
    venues: seq<VenueRow>,
    eventSheets: map<string, Sheet<EventRow>>,
    absenceSheets: map<string, Sheet<AbsenceRow>>)

  /** A component of a calendar feed, with the properties the loader reads. */
  datatype Component = Component(
    name: string,
    uid: string,
    dtstart: FeedTime,
    dtend: FeedTime,
    description: Option<string>,
    location: string,
    summary: string)

  /** A member of a zip archive of feeds. */
  datatype ZipMember = ZipMember(name: string, components: seq<Component>)

  /** `calfiles[name] == [member, count]`: the archive member chosen for a
      calendar name and the number of events taken from it. */
  datatype CalFile = CalFile(member: string, count: nat)

  /** The venue table: a name and its address lines. */
  type Addresses = map<string, seq<Option<string>>>

  /** What one row or component does: end the sheet, be skipped, or store
      an event under a key. */
  datatype Outcome = Stop | Skip | Store(key: Key, ev: EventVal)

  // ---------------------------------------------------------------------
  // date-time helpers

  /** `sethm`: the date-time with only hour and minute taken from the time
      cell, when there is one. */
  function SetHM(dt: Instant, t: Option<Time>): (r: Instant)
    ensures r.date == dt.date && r.second == dt.second
    ensures t.None? ==> r == dt
    ensures t.Some? ==> r.hour == t.value.hour && r.minute == t.value.minute
  {
    if t.Some? then DateTime(dt.date, t.value.hour, t.value.minute, dt.second) else dt
  }

  /** `mdydate`: the day of a date cell at a given wall-clock time. */
  function MdyDate(d: Instant, h: int, m: int, s: int): Instant
    requires ValidTime(h, m, s)
  {
    DateTime(d.date, h, m, s)
  }

  /** The event interval `k` and the interval from `s` to `e` overlap:
      neither ends at or before the start of the other. */
  predicate Overlaps(k: Key, s: Instant, e: Instant) {
    !(NotAfter(e, k.0) || NotAfter(k.1, s))
  }

  /** The interval meets the window: it neither ends before `from` nor
      starts after `to`. */
  predicate InWindow(k: Key, from: Instant, to: Instant) {
    !Before(k.1, from) && !Before(to, k.0)
  }

  /** `sorted([from.year, to.year + 1])`: the years whose sheets are read. */
  function YearSpan(from: Instant, to: Instant): (span: (int, int))
    ensures span.0 <= span.1
    ensures {span.0, span.1} == {from.date.year, to.date.year + 1}
  {
    if from.date.year <= to.date.year + 1 then (from.date.year, to.date.year + 1)
    else (to.date.year + 1, from.date.year)
  }

  /** The `%d %s` sheet name. */
  function SheetName(yr: int, evtypes: string): string {
    IntToString(yr) + " " + evtypes
  }

  // ---------------------------------------------------------------------
  // the workbook rows

  /** An absences row: 00:00:00 of its first day to 23:59:59 of its last
      day (the first day when blank), the window tested before the end is
      moved one day on. */
  function AbsenceOutcome(row: AbsenceRow, from: Instant, to: Instant): Outcome {
    if row.start.None? then Stop
    else if row.desc.None? then Skip
    else
      var evstart := MdyDate(row.start.value, 0, 0, 0);
      var enddate := if row.end.None? then row.start.value else row.end.value;
      var evend := MdyDate(enddate, 23, 59, 59);
      if Before(evend, evstart) then Skip
      else if Before(evend, from) || Before(to, evstart) then Skip
      else
        var bumped: Instant := DateTime(NextDay(evend.date), 23, 59, 59);
        Store((evstart, bumped), EventVal(row.desc.value, Some(""), Missing, Text("absences"), None, None, Unset))
  }

  /** An events-sheet row. A row whose key already exists is what `overlap`
      reports as 1; the later duplicate test therefore never fires. */
  function RowOutcome(row: EventRow, addrs: Addresses, keys: set<Key>, from: Instant, to: Instant): Outcome {
    if row.date.None? then Stop
    else if row.etype != Some("absences") && !(row.venue.Some? && row.venue.value in addrs) then Skip
    else if row.title.None? then Skip
    else
      var evstart := SetHM(row.date.value, row.start);
      var evend := SetHM(row.date.value, row.end);
      if (evstart, evend) in keys then Skip
      else if Before(evend, from) || Before(to, evstart) then Skip
      else
        var uni := Cell(row.uni);
        Store((evstart, evend), EventVal(row.title.value, row.venue, uni, Cell(row.etype), None, None, Unset))
  }

  /** The events of an absences sheet read in order; a later absence with
      the same interval replaces the earlier one. */
  function AbsencesEffect(evs: map<Key, EventVal>, rows: seq<AbsenceRow>, from: Instant, to: Instant): map<Key, EventVal>
    decreases |rows|
  {
    if rows == [] then evs
    else match AbsenceOutcome(rows[0], from, to)
      case Stop => evs
      case Skip => AbsencesEffect(evs, rows[1..], from, to)
      case Store(k, v) => AbsencesEffect(evs[k := v], rows[1..], from, to)
  }

  /** The events of an events sheet read in order. */
  function RowsEffect(evs: map<Key, EventVal>, addrs: Addresses, rows: seq<EventRow>, from: Instant, to: Instant): map<Key, EventVal>
    decreases |rows|
  {
    if rows == [] then evs
    else match RowOutcome(rows[0], addrs, evs.Keys, from, to)
      case Stop => evs
      case Skip => RowsEffect(evs, addrs, rows[1..], from, to)
      case Store(k, v) => RowsEffect(evs[k := v], addrs, rows[1..], from, to)
  }

  /** `RowsEffect` from row `i` on is the outcome of row `i` followed by
      the rest. */
  lemma RowsStep(evs: map<Key, EventVal>, addrs: Addresses, rows: seq<EventRow>, i: nat, from: Instant, to: Instant)
    requires i < |rows|
    ensures RowsEffect(evs, addrs, rows[i..], from, to) ==
      match RowOutcome(rows[i], addrs, evs.Keys, from, to)
      case Stop => evs
      case Skip => RowsEffect(evs, addrs, rows[i + 1..], from, to)
      case Store(k, v) => RowsEffect(evs[k := v], addrs, rows[i + 1..], from, to)
  {
    assert rows[i..][0] == rows[i] && rows[i..][1..] == rows[i + 1..];
  }

  /** One sheet, when the workbook has it. */
  function SheetEffect(evs: map<Key, EventVal>, addrs: Addresses, wb: Workbook, evtypes: string, yr: int,
                       from: Instant, to: Instant): map<Key, EventVal>
  {
    var name := SheetName(yr, evtypes);
    if evtypes == "absences" then
      if name in wb.absenceSheets then AbsencesEffect(evs, wb.absenceSheets[name].rows, from, to) else evs
    else if name in wb.eventSheets then RowsEffect(evs, addrs, wb.eventSheets[name].rows, from, to)
    else evs
  }

  /** The sheets of one year, in the order performances, rehearsals, board
      meetings, absences, each only when its switch is on. */
  function YearEffect(evs: map<Key, EventVal>, addrs: Addresses, wb: Workbook, f: Flags, yr: int,
                      from: Instant, to: Instant): map<Key, EventVal>
  {
    var e1 := if f.p then SheetEffect(evs, addrs, wb, "Performances", yr, from, to) else evs;
    var e2 := if f.r then SheetEffect(e1, addrs, wb, "Rehearsals", yr, from, to) else e1;
    var e3 := if f.b then SheetEffect(e2, addrs, wb, "board mtgs", yr, from, to) else e2;
    if f.a then SheetEffect(e3, addrs, wb, "absences", yr, from, to) else e3
  }

  /** The years `lo` up to `hi - 1`, one after the other. */
  function YearsEffect(evs: map<Key, EventVal>, addrs: Addresses, wb: Workbook, f: Flags, lo: int, hi: int,
                       from: Instant, to: Instant): map<Key, EventVal>
    decreases hi - lo
  {
    if lo >= hi then evs
    else YearsEffect(YearEffect(evs, addrs, wb, f, lo, from, to), addrs, wb, f, lo + 1, hi, from, to)
  }

  /** The venue rows up to the first one without a name. */
  function VenuesEffect(addrs: Addresses, rows: seq<VenueRow>): Addresses
    decreases |rows|
  {
    if rows == [] || rows[0].name.None? then addrs
    else VenuesEffect(addrs[rows[0].name.value := [rows[0].line1, rows[0].line2]], rows[1..])
  }

  // ---------------------------------------------------------------------
  // what the workbook rules promise

  /** An event the workbook rules can produce: inside the window, with no
      status, uid or address, and either an absence or at a known venue. */
  predicate FromSheet(k: Key, v: EventVal, addrs: Addresses, from: Instant, to: Instant) {
    InWindow(k, from, to) && v.status == Unset && v.uid.None? && v.addr.None?
    && (v.etype == Text("absences") || (v.venue.Some? && v.venue.value in addrs))
  }

  /** A stored events-sheet row: at the key its date and times give, only
      when venue, title, a free key and the window allow it, and with title,
      venue, uniform and type as read. */
  lemma RowStored(row: EventRow, addrs: Addresses, keys: set<Key>, from: Instant, to: Instant)
    requires row.date.Some?
    ensures var s := SetHM(row.date.value, row.start);
      var e := SetHM(row.date.value, row.end);
      var o := RowOutcome(row, addrs, keys, from, to);
      (o.Store? <==>
        (row.etype == Some("absences") || (row.venue.Some? && row.venue.value in addrs))
        && row.title.Some? && (s, e) !in keys && InWindow((s, e), from, to))
      && (o.Store? ==>
        o.key == (s, e) && o.ev.title == row.title.value && o.ev.venue == row.venue
        && o.ev.etype == Cell(row.etype) && o.ev.uni == Cell(row.uni))
  {
  }

  /** A stored absence: from midnight of its first day to 23:59:59 one day
      after its last day, a non-empty interval whose unmoved end meets the
      window. */
  lemma AbsenceInterval(row: AbsenceRow, from: Instant, to: Instant)
    requires AbsenceOutcome(row, from, to).Store?
    ensures var o := AbsenceOutcome(row, from, to);
      var last := if row.end.None? then row.start.value.date else row.end.value.date;
      o.key.0 == StartOfDay(row.start.value.date)
      && o.key.1.hour == 23 && o.key.1.minute == 59 && o.key.1.second == 59
      && Ordinal(o.key.1.date) == Ordinal(last) + 1
      && Before(o.key.0, o.key.1)
      && !Before(DateTime(last, 23, 59, 59), from) && !Before(to, o.key.0)
      && FromSheet(o.key, o.ev, map[], from, to)
      && o.ev == EventVal(row.desc.value, Some(""), Missing, Text("absences"), None, None, Unset)
  {
    var o := AbsenceOutcome(row, from, to);
    var last := if row.end.None? then row.start.value.date else row.end.value.date;
    var evend := DateTime(last, 23, 59, 59);
    OrdinalOrder(last, NextDay(last));
    assert Before(evend, o.key.1);
    BeforeIsStrictTotal(o.key.0, evend, o.key.1);
    BeforeIsStrictTotal(evend, o.key.1, from);
  }

  /** `r` keeps every key of `evs`; an event of `r` is the one `evs` held
      there or one the workbook rules allow. */
  ghost predicate Extends(evs: map<Key, EventVal>, r: map<Key, EventVal>, addrs: Addresses, from: Instant, to: Instant) {
    (forall k :: k in evs ==> k in r)
    && (forall k :: k in r ==> (k in evs && r[k] == evs[k]) || FromSheet(k, r[k], addrs, from, to))
  }

  lemma ExtendsTrans(a: map<Key, EventVal>, b: map<Key, EventVal>, c: map<Key, EventVal>, addrs: Addresses, from: Instant, to: Instant)
    requires Extends(a, b, addrs, from, to) && Extends(b, c, addrs, from, to)
    ensures Extends(a, c, addrs, from, to)
  {
  }

  /** An events sheet never replaces a stored event. */
  lemma {:induction false} RowsEffectProps(evs: map<Key, EventVal>, addrs: Addresses, rows: seq<EventRow>, from: Instant, to: Instant)
    ensures var r := RowsEffect(evs, addrs, rows, from, to);
      Extends(evs, r, addrs, from, to) && forall k :: k in evs ==> r[k] == evs[k]
    decreases |rows|
  {
    if rows != [] {
      match RowOutcome(rows[0], addrs, evs.Keys, from, to)
      case Stop =>
      case Skip =>
        RowsEffectProps(evs, addrs, rows[1..], from, to);
      case Store(k, v) =>
        RowsEffectProps(evs[k := v], addrs, rows[1..], from, to);
    }
  }

  lemma {:induction false} AbsencesEffectProps(evs: map<Key, EventVal>, addrs: Addresses, rows: seq<AbsenceRow>, from: Instant, to: Instant)
    ensures Extends(evs, AbsencesEffect(evs, rows, from, to), addrs, from, to)
    decreases |rows|
  {
    if rows != [] {
      match AbsenceOutcome(rows[0], from, to)
      case Stop =>
      case Skip =>
        AbsencesEffectProps(evs, addrs, rows[1..], from, to);
      case Store(k, v) =>
        AbsenceInterval(rows[0], from, to);
        AbsencesEffectProps(evs[k := v], addrs, rows[1..], from, to);
        ExtendsTrans(evs, evs[k := v], AbsencesEffect(evs[k := v], rows[1..], from, to), addrs, from, to);
    }
  }

  lemma SheetEffectProps(evs: map<Key, EventVal>, addrs: Addresses, wb: Workbook, evtypes: string, yr: int, from: Instant, to: Instant)
    ensures Extends(evs, SheetEffect(evs, addrs, wb, evtypes, yr, from, to), addrs, from, to)
  {
    var name := SheetName(yr, evtypes);
    if evtypes == "absences" {
      if name in wb.absenceSheets {
        AbsencesEffectProps(evs, addrs, wb.absenceSheets[name].rows, from, to);
      }
    } else if name in wb.eventSheets {
      RowsEffectProps(evs, addrs, wb.eventSheets[name].rows, from, to);
    }
  }

  /** Whatever the workbook holds, loading it keeps every event already
      stored, and every event it adds or replaces lies in the window and is
      an absence or at a venue of the table. */
  lemma {:induction false} YearsEffectProps(evs: map<Key, EventVal>, addrs: Addresses, wb: Workbook, f: Flags, lo: int, hi: int, from: Instant, to: Instant)
    ensures Extends(evs, YearsEffect(evs, addrs, wb, f, lo, hi, from, to), addrs, from, to)
    decreases hi - lo
  {
    if lo < hi {
      var e1 := if f.p then SheetEffect(evs, addrs, wb, "Performances", lo, from, to) else evs;
      var e2 := if f.r then SheetEffect(e1, addrs, wb, "Rehearsals", lo, from, to) else e1;
      var e3 := if f.b then SheetEffect(e2, addrs, wb, "board mtgs", lo, from, to) else e2;
      var e4 := YearEffect(evs, addrs, wb, f, lo, from, to);
      SheetEffectProps(evs, addrs, wb, "Performances", lo, from, to);
      SheetEffectProps(e1, addrs, wb, "Rehearsals", lo, from, to);
      SheetEffectProps(e2, addrs, wb, "board mtgs", lo, from, to);
      SheetEffectProps(e3, addrs, wb, "absences", lo, from, to);
      ExtendsTrans(evs, e1, e2, addrs, from, to);
      ExtendsTrans(evs, e2, e3, addrs, from, to);
      ExtendsTrans(evs, e3, e4, addrs, from, to);
      YearsEffectProps(e4, addrs, wb, f, lo + 1, hi, from, to);
      ExtendsTrans(evs, e4, YearsEffect(e4, addrs, wb, f, lo + 1, hi, from, to), addrs, from, to);
    }
  }

  // ---------------------------------------------------------------------
  // calendar feeds

  /** A feed start: an all-day date is its midnight; in an "abs" calendar a
      date-time is moved back to hour 0 of its day. */
  function FeedStart(mem: string, t: FeedTime): Instant {
    match t
    case AllDay(d) => StartOfDay(d)
    case At(dt) => if Contains(mem, "abs") && dt.hour != 0 then DateTime(dt.date, 0, dt.minute, dt.second) else dt
  }

  /** A feed end: an all-day date is its midnight; in an "abs" calendar a
      date-time with a non-zero hour is moved on to hour 0 of the next day. */
  function FeedEnd(mem: string, t: FeedTime): Instant {
    match t
    case AllDay(d) => StartOfDay(d)
    case At(dt) => if Contains(mem, "abs") && dt.hour != 0 then DateTime(NextDay(dt.date), 0, dt.minute, dt.second) else dt
  }

  /** Seconds since midnight before day 1. */
  function Seconds(t: Instant): int {
    ((Ordinal(t.date) * 24 + t.hour) * 60 + t.minute) * 60 + t.second
  }

  /** In an "abs" calendar a start loses its hours and an end with a
      non-zero hour gains 24 minus its hour; elsewhere date-times are kept. */
  lemma AbsHours(mem: string, dt: Instant)
    ensures Contains(mem, "abs") ==>
      FeedStart(mem, At(dt)).hour == 0 && Seconds(FeedStart(mem, At(dt))) == Seconds(dt) - dt.hour * 3600
      && FeedEnd(mem, At(dt)).hour == 0
      && Seconds(FeedEnd(mem, At(dt))) == Seconds(dt) + (if dt.hour == 0 then 0 else (24 - dt.hour) * 3600)
    ensures !Contains(mem, "abs") ==> FeedStart(mem, At(dt)) == dt && FeedEnd(mem, At(dt)) == dt
  {
  }

  /** The rest of the last line starting with `prefix`, if any. */
  function LastField(lines: seq<string>, prefix: string): Option<string>
    decreases |lines|
  {
    if lines == [] then None
    else if StartsWith(lines[|lines| - 1], prefix) then Some(lines[|lines| - 1][|prefix|..])
    else LastField(lines[..|lines| - 1], prefix)
  }

  /** No line starts with both markers. */
  lemma PrefixesExclusive(s: string)
    ensures !(StartsWith(s, "UNIFORM:") && StartsWith(s, "EVENT_TYPE:"))
  {
    if StartsWith(s, "UNIFORM:") {
      assert s[0] == s[..8][0] == 'U';
    }
  }

  /** The value a description gives for `prefix`: the last line that has
      it wins, and it defaults to "". */
  function DescField(desc: Option<string>, prefix: string): string {
    if desc.None? then "" else LastField(Split(desc.value, '\n'), prefix).GetOr("")
  }

  /** What a location says: the venue, the address entry for the venue
      table (none for an empty location) and the `addr` of the event. */
  datatype Place = Place(venue: string, entry: Option<seq<string>>, addr: string)

  /** Decoding a location: its first line, stripped, is the venue; the
      address is what follows the first newline, one entry per line; a
      location of one line is its own address with the entry `[""]`. */
  function DecodeLocation(loc: string): (p: Place)
    ensures loc == "" ==> p == Place("", None, "")
    ensures loc != "" && '\n' !in loc ==> p == Place(Strip(loc), Some([""]), loc)
    ensures '\n' in loc ==>
      var first := Split(loc, '\n')[0];
      loc == first + "\n" + p.addr && '\n' !in first
      && p.venue == Strip(first) && p.entry == Some(Split(p.addr, '\n'))
  {
    if loc == "" then Place("", None, "")
    else
      var flds := Split(loc, '\n');
      if |flds| > 1 then
        JoinSplit(loc, '\n');
        SplitJoin(flds[1..], '\n');
        Place(Strip(flds[0]), Some(flds[1..]), Join(flds[1..], '\n'))
      else
        JoinSplit(loc, '\n');
        Place(Strip(flds[0]), Some([""]), loc)
  }

  /** The address lines as venue-table cells. */
  function Lift(lines: seq<string>): seq<Option<string>> {
    seq(|lines|, i requires 0 <= i < |lines| => Some(lines[i]))
  }

  /** The type switches: rehearsals need r; performances, "Other" and
      social events need p; meetings need b; any other type is kept. */
  function TypeWanted(typ: string, f: Flags): bool {
    if typ == "Rehearsal" then f.r
    else if typ == "Performance" || typ == "Other" || typ == "Social Event" then f.p
    else if typ == "Meeting" then f.b
    else true
  }

  /** The events, the venue table and the count of stored events while one
      feed is read. */
  datatype CalState = CalState(evs: map<Key, EventVal>, addrs: Addresses, nev: nat)

  /** The key of a feed component: none for a component that is not an
      event or whose interval misses the window. */
  function FeedKey(mem: string, c: Component, from: Instant, to: Instant): Option<Key> {
    if c.name != "VEVENT" then None
    else
      var s := FeedStart(mem, c.dtstart);
      var e := FeedEnd(mem, c.dtend);
      if Before(e, from) || Before(to, s) then None else Some((s, e))
  }

  /** A feed event under key `k`: its location updates the venue table,
      and it is stored unless the key is taken or its type is switched off. */
  function FeedStore(st: CalState, k: Key, c: Component, f: Flags): CalState {
    var uni := DescField(c.description, "UNIFORM:");
    var typ := DescField(c.description, "EVENT_TYPE:");
    var place := DecodeLocation(c.location);
    var addrs := if place.entry.Some? then st.addrs[place.venue := Lift(place.entry.value)] else st.addrs;
    if k in st.evs || !TypeWanted(typ, f) then CalState(st.evs, addrs, st.nev)
    else
      var v := EventVal(c.summary, Some(place.venue), Text(uni), Text(typ), Some(c.uid), Some(place.addr), Unset);
      CalState(st.evs[k := v], addrs, st.nev + 1)
  }

  /** One feed component. */
  function CalStep(st: CalState, mem: string, c: Component, f: Flags, from: Instant, to: Instant): CalState {
    match FeedKey(mem, c, from, to)
    case None => st
    case Some(k) => FeedStore(st, k, c, f)
  }

  /** The components of one feed, in order. */
  function CalEffect(st: CalState, mem: string, comps: seq<Component>, f: Flags, from: Instant, to: Instant): CalState
    decreases |comps|
  {
    if comps == [] then st else CalEffect(CalStep(st, mem, comps[0], f, from, to), mem, comps[1..], f, from, to)
  }

  /** From `st` to `r`: the first event seen under a key is kept, only
      events in the window whose type the switches allow are added, and
      the count grows by exactly the events added. */
  ghost predicate FeedExtends(st: CalState, r: CalState, f: Flags, from: Instant, to: Instant) {
    (forall k :: k in st.evs ==> k in r.evs && r.evs[k] == st.evs[k])
    && (forall k :: k in r.evs && k !in st.evs ==>
          InWindow(k, from, to) && r.evs[k].etype.Text? && TypeWanted(r.evs[k].etype.s, f)
          && r.evs[k].uid.Some? && r.evs[k].status == Unset)
    && st.nev <= r.nev && |r.evs.Keys| == |st.evs.Keys| + (r.nev - st.nev)
  }

  /** A feed key lies in the window. */
  lemma FeedKeyIn(mem: string, c: Component, from: Instant, to: Instant)
    ensures FeedKey(mem, c, from, to).Some? ==> InWindow(FeedKey(mem, c, from, to).value, from, to)
  { }

  /** Storing one feed event under a key in the window extends the state. */
  lemma FeedStoreProps(st: CalState, k: Key, c: Component, f: Flags, from: Instant, to: Instant)
    requires InWindow(k, from, to)
    ensures FeedExtends(st, FeedStore(st, k, c, f), f, from, to)
  {
    var typ := DescField(c.description, "EVENT_TYPE:");
    if k !in st.evs && TypeWanted(typ, f) {
      var st1 := FeedStore(st, k, c, f);
      assert st1.evs.Keys == st.evs.Keys + {k} && st1.nev == st.nev + 1;
    }
  }

  /** One component extends the state. */
  lemma CalStepProps(st: CalState, mem: string, c: Component, f: Flags, from: Instant, to: Instant)
    ensures FeedExtends(st, CalStep(st, mem, c, f, from, to), f, from, to)
  {
    FeedKeyIn(mem, c, from, to);
    match FeedKey(mem, c, from, to)
    case None =>
    case Some(k) => FeedStoreProps(st, k, c, f, from, to);
  }

  /** Extending twice is extending. */
  lemma FeedExtendsTrans(a: CalState, b: CalState, c: CalState, f: Flags, from: Instant, to: Instant)
    requires FeedExtends(a, b, f, from, to) && FeedExtends(b, c, f, from, to)
    ensures FeedExtends(a, c, f, from, to)
  { }

  /** Reading a feed keeps the first event seen under a key, adds only
      events in the window whose type the switches allow, and counts
      exactly the events it adds. */
  lemma {:induction false} CalEffectProps(st: CalState, mem: string, comps: seq<Component>, f: Flags, from: Instant, to: Instant)
    ensures var r := CalEffect(st, mem, comps, f, from, to);
      (forall k :: k in st.evs ==> k in r.evs && r.evs[k] == st.evs[k])
      && (forall k :: k in r.evs && k !in st.evs ==>
            InWindow(k, from, to) && r.evs[k].etype.Text? && TypeWanted(r.evs[k].etype.s, f)
            && r.evs[k].uid.Some? && r.evs[k].status == Unset)
      && st.nev <= r.nev && |r.evs.Keys| == |st.evs.Keys| + (r.nev - st.nev)
    decreases |comps|
  {
    if comps == [] {
    } else {
      var st1 := CalStep(st, mem, comps[0], f, from, to);
      CalStepProps(st, mem, comps[0], f, from, to);
      CalEffectProps(st1, mem, comps[1..], f, from, to);
      FeedExtendsTrans(st, st1, CalEffect(st, mem, comps, f, from, to), f, from, to);
    }
  }

  /** `"tuners{yr}_"` and, with absences, `"tunersboardabs{yr}_"`. */
  function YearNames(yr: int, withAbs: bool): seq<string> {
    ["tuners" + IntToString(yr) + "_"] + (if withAbs then ["tunersboardabs" + IntToString(yr) + "_"] else [])
  }

  /** The default calendar-name prefixes, year by year. */
  function CalNames(lo: int, hi: int, withAbs: bool): seq<string>
    decreases hi - lo
  {
    if hi <= lo then [] else CalNames(lo, hi - 1, withAbs) + YearNames(hi - 1, withAbs)
  }

  /** The default prefixes are exactly those of the years of the span, one
      or two per year. */
  lemma CalNamesProps(lo: int, hi: int, withAbs: bool)
    ensures var names := CalNames(lo, hi, withAbs);
      |names| == (if hi <= lo then 0 else (hi - lo) * (if withAbs then 2 else 1))
      && (forall y, n :: lo <= y < hi && n in YearNames(y, withAbs) ==> n in names)
      && (forall n :: n in names ==> exists y :: lo <= y < hi && n in YearNames(y, withAbs))
  {
    CalNamesLength(lo, hi, withAbs);
    CalNamesCover(lo, hi, withAbs);
    CalNamesOnly(lo, hi, withAbs);
  }

  lemma {:induction false} CalNamesLength(lo: int, hi: int, withAbs: bool)
    ensures |CalNames(lo, hi, withAbs)| == (if hi <= lo then 0 else (hi - lo) * (if withAbs then 2 else 1))
    decreases hi - lo
  {
    if lo < hi {
      CalNamesLength(lo, hi - 1, withAbs);
      var w := if withAbs then 2 else 1;
      assert |YearNames(hi - 1, withAbs)| == w;
      assert (hi - 1 - lo) * w + w == (hi - lo) * w;
    }
  }

  lemma {:induction false} CalNamesCover(lo: int, hi: int, withAbs: bool)
    ensures forall y, n :: lo <= y < hi && n in YearNames(y, withAbs) ==> n in CalNames(lo, hi, withAbs)
    decreases hi - lo
  {
    if lo < hi {
      CalNamesCover(lo, hi - 1, withAbs);
      var before, last := CalNames(lo, hi - 1, withAbs), YearNames(hi - 1, withAbs);
      assert CalNames(lo, hi, withAbs) == before + last;
      forall y, n | lo <= y < hi && n in YearNames(y, withAbs) ensures n in before + last {
        if y < hi - 1 {
          assert n in before;
        }
      }
    }
  }

  lemma {:induction false} CalNamesOnly(lo: int, hi: int, withAbs: bool)
    ensures forall n :: n in CalNames(lo, hi, withAbs) ==> exists y :: lo <= y < hi && n in YearNames(y, withAbs)
    decreases hi - lo
  {
    if lo < hi {
      CalNamesOnly(lo, hi - 1, withAbs);
      var before, last := CalNames(lo, hi - 1, withAbs), YearNames(hi - 1, withAbs);
      assert CalNames(lo, hi, withAbs) == before + last;
      forall n | n in before + last ensures exists y :: lo <= y < hi && n in YearNames(y, withAbs) {
        if n !in before {
          assert n in YearNames(hi - 1, withAbs);
        }
      }
    }
  }

  /** The first name with the prefix. */
  function FirstMatch(prefix: string, names: seq<string>): Option<string>
    decreases |names|
  {
    if names == [] then None
    else if StartsWith(names[0], prefix) then Some(names[0])
    else FirstMatch(prefix, names[1..])
  }

  /** The chosen member starts with the prefix and no earlier one does;
      none is chosen only when no name starts with the prefix. */
  lemma {:induction false} FirstMatchProps(prefix: string, names: seq<string>)
    ensures FirstMatch(prefix, names).None? <==> forall i :: 0 <= i < |names| ==> !StartsWith(names[i], prefix)
    ensures FirstMatch(prefix, names).Some? ==>
      exists i :: 0 <= i < |names| && names[i] == FirstMatch(prefix, names).value && StartsWith(names[i], prefix)
        && forall j :: 0 <= j < i ==> !StartsWith(names[j], prefix)
    decreases |names|
  {
    if names != [] && !StartsWith(names[0], prefix) {
      FirstMatchProps(prefix, names[1..]);
      if FirstMatch(prefix, names[1..]).Some? {
        var i :| 0 <= i < |names[1..]| && names[1..][i] == FirstMatch(prefix, names).value && StartsWith(names[1..][i], prefix)
          && forall j :: 0 <= j < i ==> !StartsWith(names[1..][j], prefix);
        assert names[i + 1] == names[1..][i];
        assert forall j :: 0 <= j < i + 1 ==> !StartsWith(names[j], prefix) by {
          forall j | 0 <= j < i + 1 ensures !StartsWith(names[j], prefix) {
            if j > 0 {
              assert names[j] == names[1..][j - 1];
            }
          }
        }
      } else {
        assert forall i :: 0 <= i < |names| ==> !StartsWith(names[i], prefix) by {
          forall i | 0 <= i < |names| ensures !StartsWith(names[i], prefix) {
            if i > 0 {
              assert names[i] == names[1..][i - 1];
            }
          }
        }
      }
    }
  }

  /** `calfiles` with its keys in insertion order. */
  datatype CalTable = CalTable(files: map<string, CalFile>, order: seq<string>)

  /** The order lists each key of the table once. */
  ghost predicate TableOk(t: CalTable) {
    (forall n :: n in t.files <==> n in t.order)
    && (forall i, j :: 0 <= i < j < |t.order| ==> t.order[i] != t.order[j])
  }

  /** `calfiles[caln] = [mem, 0]`; a new key goes to the end of the order. */
  function AddCal(t: CalTable, name: string, member: string): (r: CalTable)
    requires TableOk(t)
    ensures TableOk(r) && r.files == t.files[name := CalFile(member, 0)]
  {
    CalTable(t.files[name := CalFile(member, 0)], if name in t.files then t.order else t.order + [name])
  }

  /** Each prefix, in turn, chooses the first archive member that starts
      with it; a prefix that matches nothing is passed over. */
  function Chosen(t: CalTable, calnames: seq<string>, known: seq<string>): (r: CalTable)
    requires TableOk(t)
    ensures TableOk(r)
    decreases |calnames|
  {
    if calnames == [] then t
    else match FirstMatch(calnames[0], known)
      case None => Chosen(t, calnames[1..], known)
      case Some(m) => Chosen(AddCal(t, calnames[0], m), calnames[1..], known)
  }

  /** The prefixes that match some member and are not yet in the order,
      each once, in the order they are first requested. */
  function NewlyChosen(seen: seq<string>, calnames: seq<string>, known: seq<string>): seq<string>
    decreases |calnames|
  {
    if calnames == [] then []
    else if FirstMatch(calnames[0], known).Some? && calnames[0] !in seen then
      [calnames[0]] + NewlyChosen(seen + [calnames[0]], calnames[1..], known)
    else NewlyChosen(seen, calnames[1..], known)
  }

  /** No key of the table is lost, and every chosen calendar is kept from
      the table or is a requested prefix mapped to its first matching
      member with a zero count. */
  lemma {:induction false} ChosenFrom(t: CalTable, calnames: seq<string>, known: seq<string>)
    requires TableOk(t)
    ensures t.files.Keys <= Chosen(t, calnames, known).files.Keys
    ensures var r := Chosen(t, calnames, known);
      forall n :: n in r.files ==>
        ((n in t.files && r.files[n] == t.files[n])
         || (n in calnames && FirstMatch(n, known) == Some(r.files[n].member) && r.files[n].count == 0))
    decreases |calnames|
  {
    if calnames != [] {
      match FirstMatch(calnames[0], known)
      case None =>
        ChosenFrom(t, calnames[1..], known);
      case Some(m) =>
        ChosenFrom(AddCal(t, calnames[0], m), calnames[1..], known);
    }
  }

  /** Every requested prefix that matches a member is chosen, mapped to
      its first matching member with a zero count. */
  lemma {:induction false} ChosenCovers(t: CalTable, calnames: seq<string>, known: seq<string>)
    requires TableOk(t)
    ensures var r := Chosen(t, calnames, known);
      forall n :: n in calnames && FirstMatch(n, known).Some? ==>
        n in r.files && r.files[n] == CalFile(FirstMatch(n, known).value, 0)
    decreases |calnames|
  {
    if calnames != [] {
      var n := calnames[0];
      assert forall x :: x in calnames && x != n ==> x in calnames[1..];
      match FirstMatch(n, known)
      case None =>
        ChosenCovers(t, calnames[1..], known);
      case Some(m) =>
        var t1 := AddCal(t, n, m);
        ChosenCovers(t1, calnames[1..], known);
        ChosenFrom(t1, calnames[1..], known);
    }
  }

  /** The new keys are appended to the order in first-request order. */
  lemma {:induction false} ChosenOrder(t: CalTable, calnames: seq<string>, known: seq<string>)
    requires TableOk(t)
    ensures Chosen(t, calnames, known).order == t.order + NewlyChosen(t.order, calnames, known)
    decreases |calnames|
  {
    if calnames == [] {
      assert t.order + [] == t.order;
    } else if FirstMatch(calnames[0], known).None? {
      ChosenOrder(t, calnames[1..], known);
    } else {
      var n := calnames[0];
      var t1 := AddCal(t, n, FirstMatch(n, known).value);
      assert Chosen(t, calnames, known) == Chosen(t1, calnames[1..], known);
      ChosenOrder(t1, calnames[1..], known);
      assert n in t.files <==> n in t.order;
      if n !in t.order {
        assert t1.order == t.order + [n];
        assert NewlyChosen(t.order, calnames, known)
            == [n] + NewlyChosen(t1.order, calnames[1..], known);
        assert t.order + [n] + NewlyChosen(t1.order, calnames[1..], known)
            == t.order + ([n] + NewlyChosen(t1.order, calnames[1..], known));
      } else {
        assert t1.order == t.order;
        assert NewlyChosen(t.order, calnames, known) == NewlyChosen(t1.order, calnames[1..], known);
      }
    }
  }

  /** Choosing calendars keeps the entries already in the table unless
      they are requested again, maps every requested prefix that matches
      a member to its first matching member with a zero count, adds
      nothing else, and appends the new keys in first-request order. */
  lemma ChosenProps(t: CalTable, calnames: seq<string>, known: seq<string>)
    requires TableOk(t)
    ensures var r := Chosen(t, calnames, known);
      forall n :: n in r.files ==>
        ((n in t.files && r.files[n] == t.files[n])
         || (n in calnames && FirstMatch(n, known) == Some(r.files[n].member) && r.files[n].count == 0))
    ensures var r := Chosen(t, calnames, known);
      forall n :: n in calnames && FirstMatch(n, known).Some? ==>
        n in r.files && r.files[n] == CalFile(FirstMatch(n, known).value, 0)
    ensures Chosen(t, calnames, known).order == t.order + NewlyChosen(t.order, calnames, known)
  {
    ChosenFrom(t, calnames, known);
    ChosenCovers(t, calnames, known);
    ChosenOrder(t, calnames, known);
  }

  /** `fz.namelist()` */
  function Names(zip: seq<ZipMember>): seq<string> {
    seq(|zip|, i requires 0 <= i < |zip| => zip[i].name)
  }

  /** `fz.read(name)`: the last member of that name. */
  function ReadMember(zip: seq<ZipMember>, name: string): seq<Component>
    decreases |zip|
  {
    if zip == [] then []
    else if zip[|zip| - 1].name == name then zip[|zip| - 1].components
    else ReadMember(zip[..|zip| - 1], name)
  }

  /** Events, venue table and `calfiles` while the chosen feeds are read. */
  datatype LoadState = LoadState(evs: map<Key, EventVal>, addrs: Addresses, files: map<string, CalFile>)

  /** The chosen feeds in the order of `calfiles`, each recording its count. */
  function CalsEffect(st: LoadState, names: seq<string>, zip: seq<ZipMember>, f: Flags, from: Instant, to: Instant): LoadState
    requires forall i :: 0 <= i < |names| ==> names[i] in st.files
    decreases |names|
  {
    if names == [] then st
    else
      var n := names[0];
      var r := CalEffect(CalState(st.evs, st.addrs, 0), n, ReadMember(zip, st.files[n].member), f, from, to);
      CalsEffect(LoadState(r.evs, r.addrs, st.files[n := CalFile(st.files[n].member, r.nev)]), names[1..], zip, f, from, to)
  }

  /** `dosheet`'s clean-up of the header row: the trailing empty cells are
      dropped and nothing else. */
  method TrimHeader(hdrs0: seq<Option<string>>) returns (hdrs: seq<Option<string>>)
    ensures |hdrs| <= |hdrs0| && hdrs == hdrs0[..|hdrs|]
    ensures hdrs == [] || hdrs[|hdrs| - 1].Some?
    ensures forall i :: |hdrs| <= i < |hdrs0| ==> hdrs0[i].None?
  {
    hdrs := hdrs0;
    var ndx := |hdrs| - 1;
    while ndx >= 0 && hdrs[ndx].None?
      invariant ndx == |hdrs| - 1
      invariant |hdrs| <= |hdrs0| && hdrs == hdrs0[..|hdrs|]
      invariant forall i :: |hdrs| <= i < |hdrs0| ==> hdrs0[i].None?
      decreases |hdrs|
    {
      hdrs := hdrs[..ndx];
      ndx := |hdrs| - 1;
    }
  }

  class Loader {
    /** the type switches */
    const dotypes: Flags
    /** the window */
    const fromdate: Instant
    const todate: Instant
    /** the calendar-name prefixes to look for in a zip archive */
    var calnames: seq<string>
    var events: map<Key, Event>
    var venueAddrs: Addresses
    /** `calfiles`, with `calOrder` its keys in insertion order */
    var calfiles: map<string, CalFile>
    var calOrder: seq<string>

    ghost predicate Valid()
      reads this
    {
      Distinct(events)
      && (forall k :: k in events ==> events[k].owner == this)
      && (forall n :: n in calfiles <==> n in calOrder)
      && (forall i, j :: 0 <= i < j < |calOrder| ==> calOrder[i] != calOrder[j])
    }

    /** `tuner_events(infile, dotypes, caln, ..., fromdate, todate)`: no
        input, a workbook (a name containing ".xls") or calendar feeds. */
    constructor (infile: Option<string>, dotypes: Flags, caln: seq<string>, fromdate: Instant, todate: Instant,
                 wb: Workbook, feed: seq<Component>, zip: seq<ZipMember>)
      ensures Valid()
      ensures this.dotypes == dotypes && this.fromdate == fromdate && this.todate == todate
      ensures infile.None? ==>
        events == map[] && venueAddrs == map[] && calfiles == map[] && calOrder == [] && calnames == caln
      ensures infile.Some? && Contains(infile.value, ".xls") ==>
        ExcLoaded(wb, map[], map[]) && calfiles == map[] && calOrder == [] && calnames == caln
      ensures infile.Some? && !Contains(infile.value, ".xls") ==> IcsLoaded(infile.value, feed, zip, map[], caln)
    {
      this.dotypes := dotypes;
      calnames := caln;
      this.fromdate := fromdate;
      this.todate := todate;
      events := map[];
      venueAddrs := map[];
      calfiles := map[];
      calOrder := [];
      new;
      if infile.Some? {
        if Contains(infile.value, ".xls") {
          ExcEvents(wb);
        } else {
          IcsEvents(infile.value, feed, zip);
        }
      }
    }

    /** What `exc_events` leaves behind, from the venue table `addrs0` and
        the events `evs0` it started with. */
    ghost predicate ExcLoaded(wb: Workbook, addrs0: Addresses, evs0: map<Key, EventVal>)
      reads this, events.Values
    {
      var span := YearSpan(fromdate, todate);
      venueAddrs == VenuesEffect(addrs0, wb.venues)
      && Snap(events) == YearsEffect(evs0, venueAddrs, wb, dotypes, span.0, span.1, fromdate, todate)
    }

    /** What `ics_events` leaves behind, from the venue table `addrs0` and
        the prefixes `caln0` it started with: a single feed, or the feeds of
        a zip archive that the prefixes choose, in the order of `calfiles`. */
    ghost predicate IcsLoaded(infile: string, feed: seq<Component>, zip: seq<ZipMember>, addrs0: Addresses, caln0: seq<string>)
      reads this, events.Values
    {
      if EndsWith(infile, ".ics") then
        var r := CalEffect(CalState(map[], addrs0, 0), infile, feed, dotypes, fromdate, todate);
        Snap(events) == r.evs && venueAddrs == r.addrs && calfiles == map[infile := CalFile(infile, r.nev)]
        && calOrder == [infile] && calnames == caln0
      else if EndsWith(infile, ".zip") then
        var span := YearSpan(fromdate, todate);
        var t := Chosen(CalTable(map[], []), calnames, Names(zip));
        var r := CalsEffect(LoadState(map[], addrs0, t.files), t.order, zip, dotypes, fromdate, todate);
        calnames == (if caln0 == [] then CalNames(span.0, span.1, dotypes.a) else caln0)
        && calOrder == t.order && Snap(events) == r.evs && venueAddrs == r.addrs && calfiles == r.files
      else
        events == map[] && venueAddrs == addrs0 && calfiles == map[] && calOrder == [] && calnames == caln0
    }

    /** `overlap`: 1 when the interval is already a key, otherwise 2 when it
        overlaps a stored interval, otherwise 0. */
    method Overlap(evstrt: Instant, evend: Instant) returns (rv: int)
      ensures rv == 1 <==> (evstrt, evend) in events
      ensures rv == 2 <==> (evstrt, evend) !in events && exists k :: k in events && Overlaps(k, evstrt, evend)
      ensures rv == 0 <==> (evstrt, evend) !in events && forall k :: k in events ==> !Overlaps(k, evstrt, evend)
    {
      if (evstrt, evend) in events {
        return 1;
      }
      rv := 0;
      var rest := events.Keys;
      while rest != {}
        invariant rest <= events.Keys
        invariant forall k :: k in events && k !in rest ==> !Overlaps(k, evstrt, evend)
        decreases |rest|
      {
        var k :| k in rest;
        if Overlaps(k, evstrt, evend) {
          return 2;
        }
        rest := rest - {k};
      }
    }

    /** `self.events[s_e] = {...}`: a new event object under the key. */
    method StoreEvent(k: Key, v: EventVal)
      requires Valid()
      modifies this
      ensures Valid()
      ensures Snap(events) == old(Snap(events))[k := v]
      ensures k in events && fresh(events[k]) && events[k].owner == this && events == old(events)[k := events[k]]
      ensures venueAddrs == old(venueAddrs) && calfiles == old(calfiles) && calOrder == old(calOrder) && calnames == old(calnames)
    {
      var e := new Event(v, this);
      events := events[k := e];
    }

    /** The description loop of `do_cal`. */
    method DecodeDescription(desc: string) returns (uni: string, typ: string)
      ensures uni == DescField(Some(desc), "UNIFORM:")
      ensures typ == DescField(Some(desc), "EVENT_TYPE:")
    {
      var descs := Split(desc, '\n');
      uni, typ := "", "";
      for i := 0 to |descs|
        invariant uni == LastField(descs[..i], "UNIFORM:").GetOr("")
        invariant typ == LastField(descs[..i], "EVENT_TYPE:").GetOr("")
      {
        assert descs[..i + 1][..i] == descs[..i];
        PrefixesExclusive(descs[i]);
        if StartsWith(descs[i], "UNIFORM:") {
          uni := descs[i][|"UNIFORM:"|..];
        } else if StartsWith(descs[i], "EVENT_TYPE:") {
          typ := descs[i][|"EVENT_TYPE:"|..];
        }
      }
      assert descs[..|descs|] == descs;
    }

    /** One component of a feed; returns the new count. */
    method TakeComponent(mem: string, sub: Component, nev: nat) returns (nev': nat)
      requires Valid()
      modifies this
      ensures Valid()
      ensures CalState(Snap(events), venueAddrs, nev')
        == CalStep(CalState(old(Snap(events)), old(venueAddrs), nev), mem, sub, dotypes, fromdate, todate)
      ensures calfiles == old(calfiles) && calOrder == old(calOrder) && calnames == old(calnames)
    {
      nev' := nev;
      if sub.name != "VEVENT" {
        return;
      }
      var evstrt := FeedStart(mem, sub.dtstart);
      var evend := FeedEnd(mem, sub.dtend);
      if Before(evend, fromdate) || Before(todate, evstrt) {
        return;
      }
      nev' := TakeEvent((evstrt, evend), sub, nev);
    }

    /** A feed event inside the window. */
    method TakeEvent(k: Key, sub: Component, nev: nat) returns (nev': nat)
      requires Valid()
      modifies this
      ensures Valid()
      ensures CalState(Snap(events), venueAddrs, nev') == FeedStore(CalState(old(Snap(events)), old(venueAddrs), nev), k, sub, dotypes)
      ensures calfiles == old(calfiles) && calOrder == old(calOrder) && calnames == old(calnames)
    {
      nev' := nev;
      var uni, typ := "", "";
      if sub.description.Some? {
        uni, typ := DecodeDescription(sub.description.value);
      }
      var place := DecodeLocation(sub.location);
      if place.entry.Some? {
        SetVenue(place.venue, Lift(place.entry.value));
      }
      if k in events || !TypeWanted(typ, dotypes) {
        return;
      }
      StoreEvent(k, EventVal(sub.summary, Some(place.venue), Text(uni), Text(typ), Some(sub.uid), Some(place.addr), Unset));
      nev' := nev + 1;
    }

    /** `do_cal`: the components of one feed; the count of stored events
        goes into `calfiles[mem]`. */
    method DoCal(mem: string, comps: seq<Component>)
      requires Valid() && mem in calfiles
      modifies this
      ensures Valid()
      ensures var r := CalEffect(CalState(old(Snap(events)), old(venueAddrs), 0), mem, comps, dotypes, fromdate, todate);
        Snap(events) == r.evs && venueAddrs == r.addrs
        && calfiles == old(calfiles)[mem := CalFile(old(calfiles)[mem].member, r.nev)]
      ensures calOrder == old(calOrder) && calnames == old(calnames)
    {
      var nev: nat := 0;
      var i := 0;
      while i < |comps|
        invariant 0 <= i <= |comps|
        invariant Valid()
        invariant CalEffect(CalState(Snap(events), venueAddrs, nev), mem, comps[i..], dotypes, fromdate, todate)
          == CalEffect(CalState(old(Snap(events)), old(venueAddrs), 0), mem, comps, dotypes, fromdate, todate)
        invariant calfiles == old(calfiles) && calOrder == old(calOrder) && calnames == old(calnames)
      {
        assert comps[i..][0] == comps[i] && comps[i..][1..] == comps[i + 1..];
        nev := TakeComponent(mem, comps[i], nev);
        i := i + 1;
      }
      assert comps[i..] == [];
      ghost var evs := Snap(events);
      calfiles := calfiles[mem := CalFile(calfiles[mem].member, nev)];
      assert Snap(events) == evs;
    }

    /** The default prefixes: one or two per year of the span. */
    method DefaultCalNames(lo: int, hi: int) returns (names: seq<string>)
      ensures names == CalNames(lo, hi, dotypes.a)
    {
      names := [];
      var yr := lo;
      while yr < hi
        invariant lo <= yr && (yr == lo || yr <= hi)
        invariant names == CalNames(lo, yr, dotypes.a)
        decreases hi - yr
      {
        ghost var before := names;
        names := names + ["tuners" + IntToString(yr) + "_"];
        if dotypes.a {
          names := names + ["tunersboardabs" + IntToString(yr) + "_"];
        }
        assert names == before + YearNames(yr, dotypes.a);
        yr := yr + 1;
      }
    }

    /** For each prefix the first archive member that starts with it. */
    method SelectCalendars(known: seq<string>)
      requires Valid()
      modifies this
      ensures Valid()
      ensures CalTable(calfiles, calOrder) == Chosen(old(CalTable(calfiles, calOrder)), calnames, known)
      ensures events == old(events) && venueAddrs == old(venueAddrs) && calnames == old(calnames)
    {
      var c := 0;
      while c < |calnames|
        invariant 0 <= c <= |calnames|
        invariant Valid()
        invariant Chosen(CalTable(calfiles, calOrder), calnames[c..], known) == Chosen(old(CalTable(calfiles, calOrder)), calnames, known)
        invariant events == old(events) && venueAddrs == old(venueAddrs) && calnames == old(calnames)
      {
        var caln := calnames[c];
        assert calnames[c..][0] == caln && calnames[c..][1..] == calnames[c + 1..];
        var m := 0;
        while m < |known| && !StartsWith(known[m], caln)
          invariant 0 <= m <= |known|
          invariant FirstMatch(caln, known[m..]) == FirstMatch(caln, known)
        {
          assert known[m..][1..] == known[m + 1..];
          m := m + 1;
        }
        if m < |known| {
          assert known[m..][0] == known[m];
          var t := AddCal(CalTable(calfiles, calOrder), caln, known[m]);
          calfiles, calOrder := t.files, t.order;
        }
        c := c + 1;
      }
    }

    /** `self.venue_addrs[name] = entry` */
    method SetVenue(name: string, entry: seq<Option<string>>)
      requires Valid()
      modifies this
      ensures Valid()
      ensures venueAddrs == old(venueAddrs)[name := entry]
      ensures events == old(events) && Snap(events) == old(Snap(events))
      ensures calfiles == old(calfiles) && calOrder == old(calOrder) && calnames == old(calnames)
    {
      venueAddrs := venueAddrs[name := entry];
    }

    /** The venue rows of the workbook, up to the first without a name. */
    method LoadVenues(rows: seq<VenueRow>)
      modifies this
      ensures venueAddrs == VenuesEffect(old(venueAddrs), rows)
      ensures events == old(events) && calfiles == old(calfiles) && calOrder == old(calOrder) && calnames == old(calnames)
    {
      var i := 0;
      while i < |rows|
        invariant 0 <= i <= |rows|
        invariant VenuesEffect(venueAddrs, rows[i..]) == VenuesEffect(old(venueAddrs), rows)
        invariant events == old(events) && calfiles == old(calfiles) && calOrder == old(calOrder) && calnames == old(calnames)
      {
        assert rows[i..][0] == rows[i] && rows[i..][1..] == rows[i + 1..];
        if rows[i].name.None? {
          break;
        }
        venueAddrs := venueAddrs[rows[i].name.value := [rows[i].line1, rows[i].line2]];
        i := i + 1;
      }
    }

    /** The rows of an absences sheet. */
    method LoadAbsences(rows: seq<AbsenceRow>)
      requires Valid()
      modifies this
      ensures Valid()
      ensures Snap(events) == AbsencesEffect(old(Snap(events)), rows, fromdate, todate)
      ensures venueAddrs == old(venueAddrs) && calfiles == old(calfiles) && calOrder == old(calOrder) && calnames == old(calnames)
    {
      var i := 0;
      while i < |rows|
        invariant 0 <= i <= |rows|
        invariant Valid()
        invariant AbsencesEffect(Snap(events), rows[i..], fromdate, todate) == AbsencesEffect(old(Snap(events)), rows, fromdate, todate)
        invariant venueAddrs == old(venueAddrs) && calfiles == old(calfiles) && calOrder == old(calOrder) && calnames == old(calnames)
      {
        var row := rows[i];
        assert rows[i..][0] == row && rows[i..][1..] == rows[i + 1..];
        if row.start.None? {
          break;
        }
        if row.desc.Some? {
          var evstart := MdyDate(row.start.value, 0, 0, 0);
          var enddate := if row.end.None? then row.start.value else row.end.value;
          var evend := MdyDate(enddate, 23, 59, 59);
          if !Before(evend, evstart) && !(Before(evend, fromdate) || Before(todate, evstart)) {
            var bumped: Instant := DateTime(NextDay(evend.date), 23, 59, 59);
            var v := EventVal(row.desc.value, Some(""), Missing, Text("absences"), None, None, Unset);
            assert AbsenceOutcome(row, fromdate, todate) == Store((evstart, bumped), v);
            StoreEvent((evstart, bumped), v);
          }
        }
        i := i + 1;
      }
    }

    /** The rows of an events sheet. */
    method LoadRows(rows: seq<EventRow>)
      requires Valid()
      modifies this
      ensures Valid()
      ensures Snap(events) == RowsEffect(old(Snap(events)), venueAddrs, rows, fromdate, todate)
      ensures venueAddrs == old(venueAddrs) && calfiles == old(calfiles) && calOrder == old(calOrder) && calnames == old(calnames)
    {
      var i := 0;
      while i < |rows|
        invariant 0 <= i <= |rows|
        invariant Valid()
        invariant RowsEffect(Snap(events), venueAddrs, rows[i..], fromdate, todate) == RowsEffect(old(Snap(events)), venueAddrs, rows, fromdate, todate)
        invariant venueAddrs == old(venueAddrs) && calfiles == old(calfiles) && calOrder == old(calOrder) && calnames == old(calnames)
      {
        RowsStep(Snap(events), venueAddrs, rows, i, fromdate, todate);
        var stop := LoadRow(rows[i]);
        if stop {
          break;
        }
        i := i + 1;
      }
    }

    /** One row of an events sheet; `stop` is the empty date that ends the
        sheet. */
    method LoadRow(row: EventRow) returns (stop: bool)
      requires Valid()
      modifies this
      ensures Valid()
      ensures var o := RowOutcome(row, venueAddrs, old(Snap(events)).Keys, fromdate, todate);
        (stop <==> o.Stop?) && Snap(events) == (if o.Store? then old(Snap(events))[o.key := o.ev] else old(Snap(events)))
      ensures venueAddrs == old(venueAddrs) && calfiles == old(calfiles) && calOrder == old(calOrder) && calnames == old(calnames)
    {
      stop := false;
      if row.date.None? {
        return true;
      }
      if (row.etype != Some("absences") && !(row.venue.Some? && row.venue.value in venueAddrs)) || row.title.None? {
        return;
      }
      var evstart := SetHM(row.date.value, row.start);
      var evend := SetHM(row.date.value, row.end);
      var overl := Overlap(evstart, evend);
      if overl == 1 || Before(evend, fromdate) || Before(todate, evstart) {
        return;
      }
      var uni := Cell(row.uni);
      StoreEvent((evstart, evend), EventVal(row.title.value, row.venue, uni, Cell(row.etype), None, None, Unset));
    }

    /** `dosheet`: the sheet "<yr> <evtypes>", when the workbook has it. */
    method DoSheet(evtypes: string, yr: int, wb: Workbook)
      requires Valid()
      modifies this
      ensures Valid()
      ensures Snap(events) == SheetEffect(old(Snap(events)), venueAddrs, wb, evtypes, yr, fromdate, todate)
      ensures venueAddrs == old(venueAddrs) && calfiles == old(calfiles) && calOrder == old(calOrder) && calnames == old(calnames)
    {
      var name := SheetName(yr, evtypes);
      if evtypes == "absences" {
        if name !in wb.absenceSheets {
          return;
        }
        var sh := wb.absenceSheets[name];
        var hdrs := TrimHeader(sh.header);
        LoadAbsences(sh.rows);
      } else {
        if name !in wb.eventSheets {
          return;
        }
        var sh := wb.eventSheets[name];
        var hdrs := TrimHeader(sh.header);
        LoadRows(sh.rows);
      }
    }

    /** The sheets of one year that the switches ask for. */
    method DoYear(yr: int, wb: Workbook)
      requires Valid()
      modifies this
      ensures Valid()
      ensures Snap(events) == YearEffect(old(Snap(events)), venueAddrs, wb, dotypes, yr, fromdate, todate)
      ensures venueAddrs == old(venueAddrs) && calfiles == old(calfiles) && calOrder == old(calOrder) && calnames == old(calnames)
    {
      if dotypes.p {
        DoSheet("Performances", yr, wb);
      }
      if dotypes.r {
        DoSheet("Rehearsals", yr, wb);
      }
      if dotypes.b {
        DoSheet("board mtgs", yr, wb);
      }
      if dotypes.a {
        DoSheet("absences", yr, wb);
      }
    }

    /** `exc_events`: the venue table, then for every year of the span the
        sheets the switches ask for. */
    method ExcEvents(wb: Workbook)
      requires Valid()
      modifies this
      ensures Valid()
      ensures ExcLoaded(wb, old(venueAddrs), old(Snap(events)))
      ensures calfiles == old(calfiles) && calOrder == old(calOrder) && calnames == old(calnames)
    {
      LoadVenues(wb.venues);
      var span := YearSpan(fromdate, todate);
      var yr := span.0;
      while yr < span.1
        invariant span.0 <= yr <= span.1
        invariant Valid()
        invariant venueAddrs == VenuesEffect(old(venueAddrs), wb.venues)
        invariant YearsEffect(Snap(events), venueAddrs, wb, dotypes, yr, span.1, fromdate, todate)
          == YearsEffect(old(Snap(events)), venueAddrs, wb, dotypes, span.0, span.1, fromdate, todate)
        invariant calfiles == old(calfiles) && calOrder == old(calOrder) && calnames == old(calnames)
        decreases span.1 - yr
      {
        DoYear(yr, wb);
        yr := yr + 1;
      }
    }

    /** `ics_events`: one feed file, or the chosen members of a zip archive
        of feeds; anything else loads nothing. */
    method IcsEvents(infile: string, feed: seq<Component>, zip: seq<ZipMember>)
      requires Valid()
      modifies this
      ensures Valid()
      ensures IcsLoaded(infile, feed, zip, old(venueAddrs), old(calnames))
    {
      calfiles, calOrder := map[], [];
      events := map[];
      if EndsWith(infile, ".ics") {
        calfiles, calOrder := map[infile := CalFile(infile, 0)], [infile];
        DoCal(infile, feed);
      } else if EndsWith(infile, ".zip") {
        var span := YearSpan(fromdate, todate);
        var known := Names(zip);
        if calnames == [] {
          calnames := DefaultCalNames(span.0, span.1);
        }
        SelectCalendars(known);
        ReadChosen(zip);
      }
    }

    /** The `calfiles` loop over a zip archive: each chosen member read in
        the order of the table. */
    method ReadChosen(zip: seq<ZipMember>)
      requires Valid()
      modifies this
      ensures Valid()
      ensures calOrder == old(calOrder) && calnames == old(calnames)
      ensures LoadState(Snap(events), venueAddrs, calfiles)
        == CalsEffect(old(LoadState(Snap(events), venueAddrs, calfiles)), old(calOrder), zip, dotypes, fromdate, todate)
    {
      var i := 0;
      while i < |calOrder|
        invariant 0 <= i <= |calOrder|
        invariant Valid() && calOrder == old(calOrder) && calnames == old(calnames)
        invariant calfiles.Keys == old(calfiles).Keys
        invariant CalsEffect(LoadState(Snap(events), venueAddrs, calfiles), calOrder[i..], zip, dotypes, fromdate, todate)
          == CalsEffect(old(LoadState(Snap(events), venueAddrs, calfiles)), calOrder, zip, dotypes, fromdate, todate)
      {
        var calname := calOrder[i];
        assert calOrder[i..][0] == calname && calOrder[i..][1..] == calOrder[i + 1..];
        DoCal(calname, ReadMember(zip, calfiles[calname].member));
        i := i + 1;
      }
      assert calOrder[i..] == [];
    }
  }
}
