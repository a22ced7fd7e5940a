/** What the change engine computes per event: whether two versions of an
    event differ, the changed set as a whole, and the three projections of
    a changed event -- the calendar-feed record, the spreadsheet row and the
    line of the on-screen listing. */
module EventFormats {
  import opened Util
  import opened Calendar
  import opened Events
  import opened TunerEvents

  /** The Python exceptions the projections can raise. */
  datatype Error = TypeError | ValueError | KeyError

  // ---------------------------------------------------------------------
  // reconciliation

  /** `ev.get('uni', "")`: a missing uniform reads as "", a `None` one as None. */
  function UniView(u: Slot): (r: Option<string>)
    ensures u.Missing? ==> r == Some("")
    ensures u.Null? <==> r.None?
    ensures u.Text? ==> r == Some(u.s)
  {
    match u
    case Missing => Some("")
    case Null => None
    case Text(s) => Some(s)
  }

  /** The fields the comparison looks at: title, venue and uniform. */
  predicate Differs(cur: EventVal, prior: EventVal) {
    cur.title != prior.title || cur.venue != prior.venue || UniView(cur.uni) != UniView(prior.uni)
  }

  /** An event entered by hand in Google Calendar, which is never cancelled. */
  predicate Protected(e: EventVal) {
    e.uid.Some? && EndsWith(e.uid.value, "google.com")
  }

  /** The changed set, stated as a whole: current events that are new,
      current events that differ from their prior version (marked modified),
      and unprotected prior events that are gone (marked cancelled). */
  function Reconcile(cur: map<Key, EventVal>, prior: Option<map<Key, EventVal>>): map<Key, EventVal> {
    var added := map k | k in cur && (prior.None? || k !in prior.value) :: cur[k];
    var modified := map k | k in cur && prior.Some? && k in prior.value && Differs(cur[k], prior.value[k])
      :: cur[k].(status := Modified);
    var dropped := map k | prior.Some? && k in prior.value && k !in cur && !Protected(prior.value[k])
      :: prior.value[k].(status := Cancelled);
    added + modified + dropped
  }

  /** A current key that the prior collection lacks goes in unchanged. */
  lemma ReconcileAdded(cur: map<Key, EventVal>, prior: Option<map<Key, EventVal>>, k: Key)
    requires k in cur && (prior.None? || k !in prior.value)
    ensures k in Reconcile(cur, prior) && Reconcile(cur, prior)[k] == cur[k]
  {
  }

  /** A key of both collections is in the changed set exactly when the two
      versions differ, and then with the current values, marked modified. */
  lemma ReconcileCommon(cur: map<Key, EventVal>, prior: map<Key, EventVal>, k: Key)
    requires k in cur && k in prior
    ensures k in Reconcile(cur, Some(prior)) <==> Differs(cur[k], prior[k])
    ensures k in Reconcile(cur, Some(prior)) ==> Reconcile(cur, Some(prior))[k] == cur[k].(status := Modified)
  {
  }

  /** A key only the prior collection has is cancelled unless protected, and
      then carries the prior values. */
  lemma ReconcileGone(cur: map<Key, EventVal>, prior: map<Key, EventVal>, k: Key)
    requires k !in cur && k in prior
    ensures k in Reconcile(cur, Some(prior)) <==> !Protected(prior[k])
    ensures k in Reconcile(cur, Some(prior)) ==> Reconcile(cur, Some(prior))[k] == prior[k].(status := Cancelled)
  {
  }

  /** Comparing a collection with itself changes nothing. */
  lemma ReconcileSelf(cur: map<Key, EventVal>)
    ensures Reconcile(cur, Some(cur)) == map[]
  {
    forall k | k in cur
      ensures !Differs(cur[k], cur[k])
    {
    }
    assert Reconcile(cur, Some(cur)).Keys == {};
  }

  /** Without a prior collection every current event is new. */
  lemma ReconcileNoOld(cur: map<Key, EventVal>)
    ensures Reconcile(cur, None) == cur
  {
  }

  /** The changed set holds only keys of the inputs, and a current key is
      never marked cancelled when the current events carry no status. */
  lemma ReconcileKeys(cur: map<Key, EventVal>, prior: Option<map<Key, EventVal>>)
    ensures forall k :: k in Reconcile(cur, prior) ==> k in cur || (prior.Some? && k in prior.value)
    ensures (forall k :: k in cur ==> cur[k].status == Unset) ==>
      forall k :: k in Reconcile(cur, prior) && k in cur ==> Reconcile(cur, prior)[k].status != Cancelled
  {
  }

  /** The fate of a current event, given its old version if any: in as it
      is when new, in marked modified when it differs, out otherwise. */
  function CurrentChange(cur: EventVal, prior: Option<EventVal>): Option<EventVal> {
    if prior.None? then Some(cur)
    else if Differs(cur, prior.value) then Some(cur.(status := Modified))
    else None
  }

  /** The fate of an old event that is gone: out when protected, else in
      marked cancelled. */
  function GoneChange(prior: EventVal): Option<EventVal> {
    if Protected(prior) then None else Some(prior.(status := Cancelled))
  }

  /** The changed set, key by key: the per-event rules make up `Reconcile`. */
  lemma ReconcileByKey(cur: map<Key, EventVal>, prior: Option<map<Key, EventVal>>, k: Key)
    ensures k in cur ==>
      var c := CurrentChange(cur[k], if prior.Some? && k in prior.value then Some(prior.value[k]) else None);
      (k in Reconcile(cur, prior) <==> c.Some?) && (c.Some? ==> Reconcile(cur, prior)[k] == c.value)
    ensures k !in cur && prior.Some? && k in prior.value ==>
      var c := GoneChange(prior.value[k]);
      (k in Reconcile(cur, prior) <==> c.Some?) && (c.Some? ==> Reconcile(cur, prior)[k] == c.value)
    ensures k !in cur && (prior.None? || k !in prior.value) ==> k !in Reconcile(cur, prior)
  {
  }

  /** The old version of the event under `k`, if there is one. */
  function PriorOf(prior: Option<map<Key, EventVal>>, k: Key): (r: Option<EventVal>)
    ensures r.Some? <==> prior.Some? && k in prior.value
    ensures r.Some? ==> r.value == prior.value[k]
  {
    if prior.Some? && k in prior.value then Some(prior.value[k]) else None
  }

  /** `r` holds the key `k` exactly as the per-event rule `c` says. */
  ghost predicate Fate(r: map<Key, EventVal>, k: Key, c: Option<EventVal>) {
    (k in r <==> c.Some?) && (c.Some? ==> r[k] == c.value)
  }

  /** The changed set `r` follows the per-event rules on every key. */
  ghost predicate Fates(cur: map<Key, EventVal>, prior: Option<map<Key, EventVal>>, r: map<Key, EventVal>) {
    CurrentFates(cur, prior, r) && GoneFates(cur, prior, r)
    && (forall k :: k in r ==> k in cur || (prior.Some? && k in prior.value))
  }

  /** Every current event's fate in `r` is the one `CurrentChange` gives. */
  ghost predicate CurrentFates(cur: map<Key, EventVal>, prior: Option<map<Key, EventVal>>, r: map<Key, EventVal>) {
    forall k :: k in cur ==> Fate(r, k, CurrentChange(cur[k], PriorOf(prior, k)))
  }

  /** Every gone event's fate in `r` is the one `GoneChange` gives. */
  ghost predicate GoneFates(cur: map<Key, EventVal>, prior: Option<map<Key, EventVal>>, r: map<Key, EventVal>) {
    forall k :: k !in cur && prior.Some? && k in prior.value ==> Fate(r, k, GoneChange(prior.value[k]))
  }

  /** `Reconcile` is exactly what the per-event rules give. */
  lemma ReconcileFates(cur: map<Key, EventVal>, prior: Option<map<Key, EventVal>>)
    ensures Fates(cur, prior, Reconcile(cur, prior))
  {
    forall k | k in cur
      ensures Fate(Reconcile(cur, prior), k, CurrentChange(cur[k], PriorOf(prior, k)))
    {
      ReconcileByKey(cur, prior, k);
    }
    forall k | k !in cur && prior.Some? && k in prior.value
      ensures Fate(Reconcile(cur, prior), k, GoneChange(prior.value[k]))
    {
      ReconcileByKey(cur, prior, k);
    }
    ReconcileKeys(cur, prior);
  }

  /** `base` with the values of `changed` laid over the keys in `ks`. */
  function Overlay(base: map<Key, EventVal>, changed: map<Key, EventVal>, ks: set<Key>): map<Key, EventVal> {
    map k | k in base :: if k in ks && k in changed then changed[k] else base[k]
  }

  // ---------------------------------------------------------------------
  // the calendar-feed record

  /** The uid of a feed record: the event's own, or a freshly generated one. */
  datatype Uid = Kept(uid: string) | Generated

  /** One event of the calendar feed the engine writes (its time stamp left
      aside). */
  datatype FeedEvent = FeedEvent(
    status: Option<string>,
    location: Option<string>,
    description: Option<string>,
    summary: string,
    dtstart: FeedTime,
    dtend: FeedTime,
    uid: Uid)

  /** `"%s" % x` for a cell that may hold None. */
  function Show(c: Option<string>): (s: string)
    ensures c.Some? ==> s == c.value
    ensures c.None? ==> s == "None"
  {
    if c.Some? then c.value else "None"
  }

  /** The feed status of a changed event. */
  function FeedStatus(s: Status): (r: Option<string>)
    ensures s == Cancelled <==> r == Some("CANCELLED")
    ensures s == Modified <==> r == Some("CONFIRMED")
    ensures s == Unset <==> r.None?
  {
    match s
    case Cancelled => Some("CANCELLED")
    case Modified => Some("CONFIRMED")
    case Unset => None
  }

  /** The location: venue and the two address lines, for a venue the table
      knows; an entry that is not two lines cannot be unpacked. */
  function FeedLocation(venue: Option<string>, table: Addresses): (r: Result<Option<string>, Error>)
    ensures venue.None? || venue.value !in table ==> r == Success(None)
    ensures venue.Some? && venue.value in table ==>
      var entry := table[venue.value];
      (|entry| != 2 <==> r == Failure(ValueError))
      && (|entry| == 2 ==> r == Success(Some(venue.value + "\n" + Show(entry[0]) + "\n" + Show(entry[1]))))
  {
    if venue.None? || venue.value !in table then Success(None)
    else
      var entry := table[venue.value];
      if |entry| != 2 then Failure(ValueError)
      else Success(Some(venue.value + "\n" + Show(entry[0]) + "\n" + Show(entry[1])))
  }

  /** One description line: none for a missing entry, `prefix + s` for a
      string, and a TypeError for `prefix + None`. */
  function DescLine(s: Slot, prefix: string): (r: Result<seq<string>, Error>)
    ensures s.Missing? <==> r == Success([])
    ensures s.Null? <==> r == Failure(TypeError)
    ensures s.Text? ==> r == Success([prefix + s.s])
  {
    match s
    case Missing => Success([])
    case Null => Failure(TypeError)
    case Text(t) => Success([prefix + t])
  }

  /** The description: the uniform line, then the type line, joined by
      newlines; none when the event has neither. */
  function FeedDescription(v: EventVal): (r: Result<Option<string>, Error>)
    ensures r.Failure? <==> v.uni.Null? || v.etype.Null?
    ensures r.Success? ==> (r.value.None? <==> v.uni.Missing? && v.etype.Missing?)
  {
    var u := DescLine(v.uni, "UNIFORM:");
    var t := DescLine(v.etype, "EVENT_TYPE:");
    if u.Failure? || t.Failure? then Failure(TypeError)
    else
      var lines := u.value + t.value;
      Success(if |lines| > 0 then Some(Join(lines, '\n')) else None)
  }

  /** The feed record of the changed event under key `k`. A start at hour 0
      makes both ends dates, whatever the end's hour. */
  function FeedRecord(k: Key, v: EventVal, table: Addresses): Result<FeedEvent, Error> {
    var loc := FeedLocation(v.venue, table);
    if loc.Failure? then Failure(loc.error)
    else
      var desc := FeedDescription(v);
      if desc.Failure? then Failure(desc.error)
      else
        var allDay := k.0.hour == 0;
        Success(FeedEvent(
          FeedStatus(v.status), loc.value, desc.value, v.title,
          if allDay then AllDay(k.0.date) else At(k.0),
          if allDay then AllDay(k.1.date) else At(k.1),
          if v.uid.Some? then Kept(v.uid.value) else Generated))
  }

  /** A record keeps title, uid and status, and its times are dates exactly
      when the start is at hour 0. */
  lemma FeedRecordFields(k: Key, v: EventVal, table: Addresses)
    requires FeedRecord(k, v, table).Success?
    ensures var r := FeedRecord(k, v, table).value;
      r.summary == v.title
      && (r.uid.Kept? <==> v.uid.Some?) && (v.uid.Some? ==> r.uid.uid == v.uid.value)
      && r.status == FeedStatus(v.status)
      && (k.0.hour == 0 <==> r.dtstart.AllDay?) && (r.dtstart.AllDay? <==> r.dtend.AllDay?)
      && (r.dtstart.AllDay? ==> r.dtstart.date == k.0.date && r.dtend.date == k.1.date)
      && (r.dtstart.At? ==> r.dtstart.dt == k.0 && r.dtend.dt == k.1)
  {
  }

  /** A record fails exactly when the venue's entry cannot be unpacked or the
      uniform or type holds None. */
  lemma FeedRecordFails(k: Key, v: EventVal, table: Addresses)
    ensures FeedRecord(k, v, table).Failure? <==>
      (v.venue.Some? && v.venue.value in table && |table[v.venue.value]| != 2)
      || v.uni.Null? || v.etype.Null?
  {
  }

  /** The records of the events under `keys`, in that order; the first
      failure stops the walk. */
  function Records(keys: seq<Key>, evs: map<Key, EventVal>, table: Addresses): Result<seq<FeedEvent>, Error>
    requires forall i :: 0 <= i < |keys| ==> keys[i] in evs
    decreases |keys|
  {
    if keys == [] then Success([])
    else
      var r := FeedRecord(keys[0], evs[keys[0]], table);
      if r.Failure? then Failure(r.error)
      else
        var rest := Records(keys[1..], evs, table);
        if rest.Failure? then rest else Success([r.value] + rest.value)
  }

  /** On success there is one record per key, and each is that event's. */
  lemma {:induction false} RecordsProps(keys: seq<Key>, evs: map<Key, EventVal>, table: Addresses)
    requires forall i :: 0 <= i < |keys| ==> keys[i] in evs
    ensures var r := Records(keys, evs, table);
      r.Success? <==> forall i :: 0 <= i < |keys| ==> FeedRecord(keys[i], evs[keys[i]], table).Success?
    ensures var r := Records(keys, evs, table);
      r.Success? ==> (|r.value| == |keys|
        && forall i :: 0 <= i < |keys| ==> Success(r.value[i]) == FeedRecord(keys[i], evs[keys[i]], table))
    decreases |keys|
  {
    if keys != [] {
      RecordsProps(keys[1..], evs, table);
      var r := FeedRecord(keys[0], evs[keys[0]], table);
      var rest := Records(keys[1..], evs, table);
      if r.Success? && rest.Success? {
        var all := [r.value] + rest.value;
        forall i | 0 < i < |keys|
          ensures Success(all[i]) == FeedRecord(keys[i], evs[keys[i]], table)
        {
          assert all[i] == rest.value[i - 1] && keys[i] == keys[1..][i - 1];
        }
      }
      if rest.Failure? {
        var j :| 0 <= j < |keys[1..]| && FeedRecord(keys[1..][j], evs[keys[1..][j]], table).Failure?;
        assert keys[1..][j] == keys[j + 1];
      }
      if r.Success? {
        forall j | 0 <= j < |keys[1..]|
          ensures FeedRecord(keys[1..][j], evs[keys[1..][j]], table).Success? ==
                  FeedRecord(keys[j + 1], evs[keys[j + 1]], table).Success?
        {
          assert keys[1..][j] == keys[j + 1];
        }
      }
    }
  }

  /** What writing the feed produces: the number of events and, when there
      is at least one, the file's records. */
  datatype CalOutput = CalOutput(count: nat, file: Option<seq<FeedEvent>>)

  // ---------------------------------------------------------------------
  // the spreadsheet row

  /** One row of the spreadsheet export, in the column order of its header. */
  datatype CsvRow = CsvRow(
    name: string,
    dateStart: string,
    dateEnd: string,
    eventType: string,
    locationName: string,
    street: string,
    additional: string,
    city: string,
    province: string,
    country: string,
    postalCode: string,
    notes: string,
    internalNotes: string)

  /** What the csv writer puts in a cell: None is written as "". */
  function CsvCell(c: Option<string>): (s: string)
    ensures c.Some? ==> s == c.value
    ensures c.None? ==> s == ""
  {
    if c.Some? then c.value else ""
  }

  /** A slot, written by the csv writer (a slot read directly is never missing). */
  function SlotCell(c: Slot): (s: string)
    ensures c.Text? ==> s == c.s
    ensures !c.Text? ==> s == ""
  {
    if c.Text? then c.s else ""
  }

  /** City, state and zip from the second address line. Comma pieces,
      stripped, are city, state and the rest; a third piece is the zip; a
      state longer than five characters is "state zip"; WA is spelled
      out. No address line gives three empty strings. */
  function SplitAddress(a2: Option<string>): Result<(string, string, string), Error> {
    if a2.None? then Success(("", "", ""))
    else
      var parts := StripAll(Split(a2.value, ','));
      if |parts| < 2 then Failure(ValueError)
      else if |parts| > 2 then Success((parts[0], parts[1], Strip(parts[2])))
      else if |parts[1]| > 5 then
        var sz := Split(parts[1], ' ');
        if |sz| != 2 then Failure(ValueError)
        else Success((parts[0], if sz[0] == "WA" then "Washington" else sz[0], sz[1]))
      else Success((parts[0], parts[1], ""))
  }

  /** Each piece stripped of surrounding whitespace. */
  function StripAll(raw: seq<string>): (r: seq<string>)
    ensures |r| == |raw| && forall i :: 0 <= i < |raw| ==> r[i] == Strip(raw[i])
  {
    seq(|raw|, i requires 0 <= i < |raw| => Strip(raw[i]))
  }

  /** No whitespace character anywhere. */
  predicate Solid(s: string) {
    forall i :: 0 <= i < |s| ==> !IsSpace(s[i])
  }

  /** `"city, ST zip"` splits into its three parts, with WA spelled out. */
  lemma SplitAddressCityStateZip(city: string, st: string, zip: string)
    requires ',' !in city && city != [] && !IsSpace(city[0]) && !IsSpace(city[|city| - 1])
    requires Solid(st) && Solid(zip) && ',' !in st && ',' !in zip && st != [] && zip != []
    requires |st| + 1 + |zip| > 5
    ensures SplitAddress(Some(city + ", " + st + " " + zip))
      == Success((city, if st == "WA" then "Washington" else st, zip))
  {
    var body := st + " " + zip;
    assert city + ", " + st + " " + zip == city + ", " + body;
    assert body[0] == st[0] && body[|body| - 1] == zip[|zip| - 1];
    assert ',' !in body;
    AddressParts(city, body);
    SpaceSplit(st, zip);
  }

  /** `"city, rest"` is the city and the rest once split at the comma and
      stripped. */
  lemma AddressParts(city: string, body: string)
    requires ',' !in city && city != [] && !IsSpace(city[0]) && !IsSpace(city[|city| - 1])
    requires ',' !in body && body != [] && !IsSpace(body[0]) && !IsSpace(body[|body| - 1])
    ensures StripAll(Split(city + ", " + body, ',')) == [city, body]
  {
    assert city + ", " + body == city + "," + " " + body;
    CommaSplit(city, body);
    StripPair(city, body);
  }

  /** The city and the space-led rest, stripped. */
  lemma StripPair(city: string, body: string)
    requires city != [] && !IsSpace(city[0]) && !IsSpace(city[|city| - 1])
    requires body != [] && !IsSpace(body[0]) && !IsSpace(body[|body| - 1])
    ensures StripAll([city, " " + body]) == [city, body]
  {
    StripNoop(city);
    StripLeadingSpace(body);
    StripTwo(city, " " + body);
  }

  lemma StripTwo(a: string, b: string)
    ensures StripAll([a, b]) == [Strip(a), Strip(b)]
  {
    var r := StripAll([a, b]);
    assert r[0] == Strip(a) && r[1] == Strip(b);
  }

  /** One comma between a comma-free head and a comma-free tail. */
  lemma CommaSplit(city: string, body: string)
    requires ',' !in city && ',' !in body
    ensures Split(city + "," + " " + body, ',') == [city, " " + body]
  {
    var tail := " " + body;
    assert city + "," + " " + body == city + [','] + tail;
    SplitAround(city, ',', tail);
    SplitNoSep(city, ',');
    SplitNoSep(tail, ',');
  }

  /** `" state zip"` strips to `"state zip"`. */
  lemma StripLeadingSpace(body: string)
    requires body != [] && !IsSpace(body[0]) && !IsSpace(body[|body| - 1])
    ensures Strip(" " + body) == body
  {
    assert (" " + body)[1..] == body;
    assert LStrip(" " + body) == LStrip(body);
    StripNoop(body);
  }

  /** `"state zip".split(" ")` for space-free state and zip. */
  lemma SpaceSplit(st: string, zip: string)
    requires Solid(st) && Solid(zip)
    ensures Split(st + " " + zip, ' ') == [st, zip]
  {
    assert ' ' !in st && ' ' !in zip;
    assert st + " " + zip == st + [' '] + zip;
    SplitAround(st, ' ', zip);
    SplitNoSep(st, ' ');
    SplitNoSep(zip, ' ');
  }

  /** With three or more comma pieces the third one is the zip. */
  lemma SplitAddressThreeParts(a2: string)
    requires |Split(a2, ',')| >= 3
    ensures var raw := Split(a2, ',');
      SplitAddress(Some(a2)) == Success((Strip(raw[0]), Strip(raw[1]), Strip(Strip(raw[2]))))
  {
  }

  /** A line with no comma cannot be unpacked into city and state. */
  lemma SplitAddressNoComma(a2: string)
    requires ',' !in a2
    ensures SplitAddress(Some(a2)) == Failure(ValueError)
  {
    SplitNoSep(a2, ',');
  }

  /** `if not ev['uni']: ev['uni'] = "- none -"`: an empty or None uniform
      gets the placeholder (the caller rules out a missing one). */
  function NewUni(u: Slot): (r: string)
    requires !u.Missing?
    ensures r != ""
    ensures u == Null || u == Text("") ==> r == "- none -"
    ensures u.Text? && u.s != "" ==> r == u.s
  {
    if u.Text? && u.s != "" then u.s else "- none -"
  }

  /** `%b`: the English month abbreviation. */
  function MonthAbbr(m: int): (s: string)
    requires 1 <= m <= 12
    ensures |s| == 3 && !IsSpace(s[0]) && 'a' <= s[1] <= 'z' && 'a' <= s[2] <= 'z'
  {
    ["Jan", "Feb", "Mar", "Apr", "May", "Jun", "Jul", "Aug", "Sep", "Oct", "Nov", "Dec"][m - 1]
  }

  /** `%I`: the hour on a twelve-hour clock. */
  function Hour12(h: int): (r: nat)
    requires 0 <= h < 24
    ensures 1 <= r <= 12 && r % 12 == h % 12
  {
    if h % 12 == 0 then 12 else h % 12
  }

  /** `t.strftime("%b %d %Y - %I:%M%p")` */
  function Stamp(t: Instant): string {
    MonthAbbr(t.date.month) + " " + Pad2(t.date.day) + " " + IntToString(t.date.year)
      + " - " + Pad2(Hour12(t.hour)) + ":" + Pad2(t.minute) + (if t.hour < 12 then "AM" else "PM")
  }

  /** The date text of a spreadsheet row: the stamp with every " 0" turned
      into " " and AM/PM in lower case. */
  function CleanStamp(t: Instant): string {
    Replace(Replace(Replace(Stamp(t), " 0", " "), "AM", "am"), "PM", "pm")
  }

  /** The clean stamp is the stamp with unpadded day and hour and a
      lower-case am/pm. */
  lemma CleanStampForm(t: Instant)
    ensures CleanStamp(t) ==
      MonthAbbr(t.date.month) + " " + NatToString(t.date.day) + " " + NatToString(t.date.year)
        + " - " + NatToString(Hour12(t.hour)) + ":" + Pad2(t.minute) + (if t.hour < 12 then "am" else "pm")
  {
    var mon := MonthAbbr(t.date.month);
    var mi := Pad2(t.minute);
    var pm := if t.hour < 12 then "AM" else "PM";
    var front := mon + " " + NatToString(t.date.day) + " " + NatToString(t.date.year)
      + " - " + NatToString(Hour12(t.hour)) + ":" + mi;
    StampUnpadded(t);
    NoMarker(front, mon, NatToString(t.date.day), NatToString(t.date.year), NatToString(Hour12(t.hour)), mi);
    assert front[|front| - 1] == mi[|mi| - 1];
    MarkerPass(front, pm);
  }

  /** The first replacement of `CleanStamp` strips the padding zeros. */
  lemma StampUnpadded(t: Instant)
    ensures Replace(Stamp(t), " 0", " ") ==
      MonthAbbr(t.date.month) + " " + NatToString(t.date.day) + " " + NatToString(t.date.year)
        + " - " + NatToString(Hour12(t.hour)) + ":" + Pad2(t.minute) + (if t.hour < 12 then "AM" else "PM")
  {
    var mon := MonthAbbr(t.date.month);
    var mi := Pad2(t.minute);
    var pm := if t.hour < 12 then "AM" else "PM";
    StampSpaces(t);
    assert Stamp(t) == mon + " " + Pad2(t.date.day) + " " + IntToString(t.date.year)
      + " - " + Pad2(Hour12(t.hour)) + ":" + (mi + pm);
    var p1 := Pad2(t.date.day);
    var yr := NatToString(t.date.year);
    var p4 := Pad2(Hour12(t.hour));
    assert IsDigit(p1[|p1| - 1]) && IsDigit(yr[|yr| - 1]) && IsDigit(p4[|p4| - 1]);
    PadUnpad(t.date.day);
    YearUnpadded(t.date.year);
    PadUnpad(Hour12(t.hour));
    UnpadPass(mon, p1, NatToString(t.date.day), yr, p4, NatToString(Hour12(t.hour)), mi + pm);
    var front := mon + " " + NatToString(t.date.day) + " " + NatToString(t.date.year)
      + " - " + NatToString(Hour12(t.hour)) + ":" + mi;
    assert front + pm == mon + " " + NatToString(t.date.day) + " " + yr + " - " + NatToString(Hour12(t.hour)) + ":" + (mi + pm);
  }

  /** The month and the minutes-and-meridiem tail of a stamp hold no space. */
  lemma StampSpaces(t: Instant)
    ensures ' ' !in MonthAbbr(t.date.month)
    ensures ' ' !in Pad2(t.minute) + (if t.hour < 12 then "AM" else "PM")
  {
    var mon := MonthAbbr(t.date.month);
    var mi := Pad2(t.minute);
    var pm := if t.hour < 12 then "AM" else "PM";
    forall i | 0 <= i < |mi + pm| ensures (mi + pm)[i] != ' ' {
      if i < |mi| {
        assert IsDigit(mi[i]);
      }
    }
    forall i | 0 <= i < |mon| ensures mon[i] != ' ' { }
  }

  /** The first replacement strips the padding zero of the day and the hour
      and touches nothing else. */
  lemma UnpadPass(mon: string, p1: string, d1: string, yr: string, p4: string, d4: string, rest: string)
    requires |mon| == 3 && ' ' !in mon
    requires p1 != [] && p1[|p1| - 1] != ' ' && Replace(" " + p1, " 0", " ") == " " + d1
    requires yr != [] && yr[|yr| - 1] != ' ' && Replace(" " + yr, " 0", " ") == " " + yr
    requires p4 != [] && p4[|p4| - 1] != ' ' && Replace(" " + p4, " 0", " ") == " " + d4
    requires ' ' !in rest
    ensures Replace(mon + " " + p1 + " " + yr + " - " + p4 + ":" + rest, " 0", " ")
      == mon + " " + d1 + " " + yr + " - " + d4 + ":" + rest
  {
    var c1 := " " + p1;
    var c2 := " " + yr;
    var c3 := " -";
    var c4 := " " + p4;
    var c5 := ":" + rest;
    assert ' ' !in c5;
    NoSpaceNoPair(c5, '0');
    ReplaceAbsent(c5, " 0", " ");
    assert c4[|c4| - 1] == p4[|p4| - 1];
    ReplaceConcat(c4, c5, " 0", " ");
    var t4 := c4 + c5;
    DashKept();
    ReplaceConcat(c3, t4, " 0", " ");
    var t3 := c3 + t4;
    assert c2[|c2| - 1] == yr[|yr| - 1];
    ReplaceConcat(c2, t3, " 0", " ");
    var t2 := c2 + t3;
    assert c1[|c1| - 1] == p1[|p1| - 1];
    ReplaceConcat(c1, t2, " 0", " ");
    var t1 := c1 + t2;
    NoSpaceNoPair(mon, '0');
    ReplaceAbsent(mon, " 0", " ");
    assert mon[2] != ' ';
    ReplaceConcat(mon, t1, " 0", " ");
    StampPieces(mon, p1, yr, p4, rest);
    StampPieces(mon, d1, yr, d4, rest);
  }

  /** The stamp as the pieces the replacement goes through. */
  lemma StampPieces(mon: string, p1: string, yr: string, p4: string, rest: string)
    ensures mon + " " + p1 + " " + yr + " - " + p4 + ":" + rest
      == mon + ((" " + p1) + ((" " + yr) + (" -" + ((" " + p4) + (":" + rest)))))
  {
  }

  lemma DashKept()
    ensures Replace(" -", " 0", " ") == " -"
  {
    var s := " -";
    assert s[..2][1] == s[1] == '-' != " 0"[1];
    assert Replace(s[1..], " 0", " ") == "-";
  }

  /** The case changes turn only the final marker into lower case. */
  lemma MarkerPass(front: string, pm: string)
    requires pm == "AM" || pm == "PM"
    requires !Contains(front, "AM") && !Contains(front, "PM")
    requires front != [] && front[|front| - 1] != 'A' && front[|front| - 1] != 'P'
    ensures Replace(Replace(front + pm, "AM", "am"), "PM", "pm") == front + (if pm == "AM" then "am" else "pm")
  {
    ReplaceAbsent(front, "AM", "am");
    ReplaceConcat(front, pm, "AM", "am");
    var lower := if pm == "AM" then "am" else "PM";
    assert Replace(pm, "AM", "am") == lower;
    ReplaceAbsent(front, "PM", "pm");
    ReplaceConcat(front, lower, "PM", "pm");
    assert Replace(lower, "PM", "pm") == (if pm == "AM" then "am" else "pm");
  }

  /** A pattern `[' ', c]` cannot occur in a string without spaces. */
  lemma {:induction false} NoSpaceNoPair(s: string, c: char)
    requires ' ' !in s
    ensures !Contains(s, [' ', c])
    decreases |s|
  {
    if |s| >= 2 {
      assert s[..2][0] == s[0];
    }
    if |s| > 0 {
      assert ' ' !in s[1..];
      NoSpaceNoPair(s[1..], c);
    }
  }

  /** A pattern `[c, 'M']` cannot occur where no character but the first is 'M'. */
  lemma {:induction false} NoMAfterFirst(s: string, c: char)
    requires forall i :: 1 <= i < |s| ==> s[i] != 'M'
    ensures !Contains(s, [c, 'M'])
    decreases |s|
  {
    if |s| >= 2 {
      assert s[..2][1] == s[1];
    }
    if |s| > 0 {
      assert forall i :: 1 <= i < |s[1..]| ==> s[1..][i] == s[i + 1];
      NoMAfterFirst(s[1..], c);
    }
  }

  /** The text before the am/pm marker holds no "AM" or "PM". */
  lemma NoMarker(front: string, mon: string, d: string, yr: string, h: string, mi: string)
    requires |mon| == 3 && 'a' <= mon[1] <= 'z' && 'a' <= mon[2] <= 'z'
    requires AllDigits(d) && AllDigits(yr) && AllDigits(h) && AllDigits(mi)
    requires front == mon + " " + d + " " + yr + " - " + h + ":" + mi
    ensures !Contains(front, "AM") && !Contains(front, "PM")
  {
    assert forall i :: 1 <= i < |front| ==> front[i] != 'M' by {
      forall i | 1 <= i < |front| ensures front[i] != 'M' {
        var rest := " " + d + " " + yr + " - " + h + ":" + mi;
        assert front == mon + rest;
        if i >= 3 {
          assert front[i] == rest[i - 3];
          var j := i - 3;
          var b1 := 1 + |d|;
          var b2 := b1 + 1 + |yr|;
          var b3 := b2 + 3 + |h|;
          if 1 <= j < b1 {
            assert rest[j] == d[j - 1];
          } else if b1 + 1 <= j < b2 {
            assert rest[j] == yr[j - b1 - 1];
          } else if b2 + 3 <= j < b3 {
            assert rest[j] == h[j - b2 - 3];
          } else if b3 + 1 <= j {
            assert rest[j] == mi[j - b3 - 1];
          }
        }
      }
    }
    NoMAfterFirst(front, 'A');
    NoMAfterFirst(front, 'P');
  }

  /** `" %02d"` loses its padding zero to the replacement. */
  lemma PadUnpad(n: nat)
    requires n < 100
    ensures Replace(" " + Pad2(n), " 0", " ") == " " + NatToString(n)
  {
    var s := " " + Pad2(n);
    if n < 10 {
      assert s == " 0" + NatToString(n);
      assert s[..2] == " 0" && s[2..] == NatToString(n);
    } else {
      var p := NatToString(n);
      assert |p| == 2 by {
        assert p == NatToString(n / 10) + [DigitChar(n % 10)];
      }
      assert s[1] == p[0] != '0';
      assert s[..2] != " 0";
      assert s[1..] == p;
      assert IsDigit(p[0]) && p[..2] == p && p != " 0";
      assert Replace(p[1..], " 0", " ") == p[1..];
      assert Replace(p, " 0", " ") == [p[0]] + p[1..] == p;
    }
  }

  /** A year of the calendar starts with a non-zero digit and has no space. */
  lemma YearUnpadded(y: int)
    requires y >= 1
    ensures Replace(" " + IntToString(y), " 0", " ") == " " + NatToString(y)
  {
    var yr := NatToString(y);
    var s := " " + yr;
    assert s[1] == yr[0] != '0';
    assert s[..2] != " 0";
    assert s[1..] == yr;
    assert ' ' !in yr by {
      forall i | 0 <= i < |yr| ensures yr[i] != ' ' {
        assert IsDigit(yr[i]);
      }
    }
    NoSpaceNoPair(yr, '0');
    ReplaceAbsent(yr, " 0", " ");
  }

  /** The spreadsheet row of the changed event under `k`, or none for an
      absence. `table` is the venue table of the prior loader when there is
      one; `utc` is the conversion of a local time to UTC. */
  function CsvRecord(k: Key, v: EventVal, table: Addresses, utc: Instant -> Instant): (r: Result<Option<CsvRow>, Error>)
    ensures r.Success? ==> (r.value.None? <==> v.etype == Text("absences")) && (r.value.Some? ==> !v.uni.Missing?)
  {
    if v.etype.Missing? then Failure(KeyError)
    else if v.etype == Text("absences") then Success(None)
    else
      var lines: Result<(Option<string>, Option<string>), Error> :=
        if v.venue.Some? && v.venue.value != "" then
          if v.venue.value !in table then Failure(KeyError)
          else if |table[v.venue.value]| != 2 then Failure(ValueError)
          else Success((table[v.venue.value][0], table[v.venue.value][1]))
        else Success((Some(""), None));
      if lines.Failure? then Failure(lines.error)
      else
        var place := SplitAddress(lines.value.1);
        if place.Failure? then Failure(place.error)
        else if v.uni.Missing? then Failure(KeyError)
        else
          var (city, st, zip) := place.value;
          Success(Some(CsvRow(
            v.title, CleanStamp(utc(k.0)), CleanStamp(utc(k.1)), SlotCell(v.etype), CsvCell(v.venue),
            CsvCell(lines.value.0), "", city, st, "United States", zip, "UNIFORM:" + NewUni(v.uni), "")))
  }

  /** A row has the fixed columns, the event's title and type, and notes
      naming its uniform; an absence gives no row. */
  lemma CsvRecordFields(k: Key, v: EventVal, table: Addresses, utc: Instant -> Instant)
    ensures var r := CsvRecord(k, v, table, utc);
      (v.etype == Text("absences") <==> r == Success(None))
      && (r.Success? && r.value.Some? ==>
        var row := r.value.value;
        row.name == v.title && row.country == "United States" && row.additional == ""
        && row.internalNotes == "" && row.eventType == SlotCell(v.etype)
        && row.notes == "UNIFORM:" + NewUni(v.uni) && row.locationName == CsvCell(v.venue)
        && row.dateStart == CleanStamp(utc(k.0)) && row.dateEnd == CleanStamp(utc(k.1)))
  {
  }

  /** An event with no venue has no address parts. */
  lemma CsvRecordNoVenue(k: Key, v: EventVal, table: Addresses, utc: Instant -> Instant)
    requires v.venue.None? || v.venue == Some("")
    requires v.etype.Text? && v.etype.s != "absences" && !v.uni.Missing?
    ensures var r := CsvRecord(k, v, table, utc);
      r.Success? && r.value.Some? && r.value.value.street == "" && r.value.value.city == ""
      && r.value.value.province == "" && r.value.value.postalCode == ""
  {
  }

  /** The uniform an event carries after the rows have been written:
      non-absence events that got their row have an empty uniform replaced
      by the placeholder. */
  function FixUni(v: EventVal): EventVal
    requires !v.uni.Missing?
  {
    v.(uni := Text(NewUni(v.uni)))
  }

  /** How the export makes one event's row: an error that stops it, no row
      (an absence), or the row. */
  type RowMaker = (Key, EventVal) -> Result<Option<CsvRow>, Error>

  /** What the walk over the events relies on in the row maker: no row
      exactly for an absence, and a row only for an event with a uniform. */
  ghost predicate RowRule(row: RowMaker) {
    forall k, v :: row(k, v).Success? ==>
      (row(k, v).value.None? <==> v.etype == Text("absences")) && (row(k, v).value.Some? ==> !v.uni.Missing?)
  }

  /** `csv_record` as a row maker, for a venue table and a conversion to UTC. */
  function RowsOf(table: Addresses, utc: Instant -> Instant): (row: RowMaker)
    ensures RowRule(row)
    ensures forall k, v :: row(k, v) == CsvRecord(k, v, table, utc)
  {
    (k, v) => CsvRecord(k, v, table, utc)
  }

  /** Rows of the events under `keys`, in order, as `row` makes them, and the
      events with their uniforms rewritten; a failure stops the walk,
      keeping the rewrites made so far. */
  function CsvEffect(keys: seq<Key>, evs: map<Key, EventVal>, row: RowMaker)
    : (r: (Result<seq<CsvRow>, Error>, map<Key, EventVal>))
    requires forall i :: 0 <= i < |keys| ==> keys[i] in evs
    requires RowRule(row)
    ensures r.1.Keys == evs.Keys
    decreases |keys|
  {
    if keys == [] then (Success([]), evs)
    else
      var k := keys[0];
      var r := row(k, evs[k]);
      if r.Failure? then (Failure(r.error), evs)
      else if r.value.None? then CsvEffect(keys[1..], evs, row)
      else
        var evs' := evs[k := FixUni(evs[k])];
        var (rest, out) := CsvEffect(keys[1..], evs', row);
        (if rest.Failure? then rest else Success([r.value.value] + rest.value), out)
  }

  /** The non-absence keys, in order. */
  function NonAbsences(keys: seq<Key>, evs: map<Key, EventVal>): (r: seq<Key>)
    requires forall i :: 0 <= i < |keys| ==> keys[i] in evs
    ensures forall k :: k in r ==> k in keys && k in evs
    ensures forall k :: k in r <==> k in keys && evs[k].etype != Text("absences")
    decreases |keys|
  {
    if keys == [] then []
    else if evs[keys[0]].etype == Text("absences") then NonAbsences(keys[1..], evs)
    else [keys[0]] + NonAbsences(keys[1..], evs)
  }

  /** Writing the rows changes no event but in its uniform, and none that
      is not written. */
  lemma {:induction false} CsvEffectFrame(keys: seq<Key>, evs: map<Key, EventVal>, row: RowMaker)
    requires forall i :: 0 <= i < |keys| ==> keys[i] in evs
    requires RowRule(row)
    ensures var out := CsvEffect(keys, evs, row).1;
      (forall k :: k in evs ==> out[k] == evs[k].(uni := out[k].uni))
      && (forall k :: k in evs && k !in keys ==> out[k] == evs[k])
    decreases |keys|
  {
    if keys != [] {
      var k := keys[0];
      var r := row(k, evs[k]);
      if r.Success? {
        var evs' := if r.value.None? then evs else evs[k := FixUni(evs[k])];
        CsvEffectFrame(keys[1..], evs', row);
        var out := CsvEffect(keys[1..], evs', row).1;
        assert CsvEffect(keys, evs, row).1 == out;
        forall k' | k' in evs
          ensures out[k'] == evs[k'].(uni := out[k'].uni)
          ensures k' !in keys ==> out[k'] == evs[k']
        {
          assert evs'[k'] == evs[k'].(uni := evs'[k'].uni);
          if k' !in keys {
            assert k' != k && k' !in keys[1..];
          }
        }
      }
    }
  }

  /** When every row is written, exactly the non-absence events have their
      uniform rewritten. */
  lemma {:induction false} CsvEffectUniforms(keys: seq<Key>, evs: map<Key, EventVal>, row: RowMaker)
    requires forall i :: 0 <= i < |keys| ==> keys[i] in evs
    requires RowRule(row)
    requires forall i, j :: 0 <= i < j < |keys| ==> keys[i] != keys[j]
    ensures var (r, out) := CsvEffect(keys, evs, row);
      r.Success? ==> forall i :: 0 <= i < |keys| ==>
        if evs[keys[i]].etype == Text("absences") then out[keys[i]] == evs[keys[i]]
        else !evs[keys[i]].uni.Missing? && out[keys[i]] == FixUni(evs[keys[i]])
    decreases |keys|
  {
    if keys != [] {
      var k := keys[0];
      var r := row(k, evs[k]);
      assert forall i :: 0 <= i < |keys[1..]| ==> keys[1..][i] == keys[i + 1];
      assert k !in keys[1..];
      if r.Success? {
        var evs' := if r.value.None? then evs else evs[k := FixUni(evs[k])];
        CsvEffectUniforms(keys[1..], evs', row);
        CsvEffectFrame(keys[1..], evs', row);
        assert CsvEffect(keys, evs, row).1 == CsvEffect(keys[1..], evs', row).1;
      }
    }
  }

  /** For distinct keys, on success there is one row per non-absence event,
      in order, each that event's row. */
  lemma CsvEffectRows(keys: seq<Key>, evs: map<Key, EventVal>, row: RowMaker)
    requires forall i :: 0 <= i < |keys| ==> keys[i] in evs
    requires RowRule(row)
    requires forall i, j :: 0 <= i < j < |keys| ==> keys[i] != keys[j]
    ensures var r := CsvEffect(keys, evs, row).0;
      var rows := NonAbsences(keys, evs);
      r.Success? ==>
        |r.value| == |rows|
        && forall i :: 0 <= i < |rows| ==> Success(Some(r.value[i])) == row(rows[i], evs[rows[i]])
  {
    var r := CsvEffect(keys, evs, row).0;
    var rows := NonAbsences(keys, evs);
    if r.Success? {
      CsvEffectRecords(keys, evs, row);
      forall i | 0 <= i < |rows|
        ensures Success(Some(r.value[i])) == row(rows[i], evs[rows[i]])
      {
        WrapAt(r.value, i);
        CsvRecordsAt(rows, evs, row, i);
      }
    }
  }

  /** Each written row as the record result it came from. */
  function Wrapped(rows: seq<CsvRow>): (r: seq<Result<Option<CsvRow>, Error>>)
    ensures |r| == |rows|
  {
    if rows == [] then [] else [Success(Some(rows[0]))] + Wrapped(rows[1..])
  }

  /** The records of the events under `keys`, in order. */
  function CsvRecords(keys: seq<Key>, evs: map<Key, EventVal>, row: RowMaker)
    : (r: seq<Result<Option<CsvRow>, Error>>)
    requires forall k :: k in keys ==> k in evs
    ensures |r| == |keys|
  {
    if keys == [] then [] else [row(keys[0], evs[keys[0]])] + CsvRecords(keys[1..], evs, row)
  }

  lemma {:induction false} WrapAt(rows: seq<CsvRow>, i: nat)
    requires i < |rows|
    ensures Wrapped(rows)[i] == Success(Some(rows[i]))
  {
    if i > 0 {
      WrapAt(rows[1..], i - 1);
    }
  }

  lemma {:induction false} CsvRecordsAt(keys: seq<Key>, evs: map<Key, EventVal>, row: RowMaker, i: nat)
    requires forall k :: k in keys ==> k in evs
    requires i < |keys|
    ensures CsvRecords(keys, evs, row)[i] == row(keys[i], evs[keys[i]])
  {
    if i > 0 {
      assert keys[1..][i - 1] == keys[i];
      CsvRecordsAt(keys[1..], evs, row, i - 1);
    }
  }

  /** The rows written, seen as record results, are the records of the
      non-absence events. */
  lemma {:induction false} CsvEffectRecords(keys: seq<Key>, evs: map<Key, EventVal>, row: RowMaker)
    requires forall i :: 0 <= i < |keys| ==> keys[i] in evs
    requires RowRule(row)
    requires forall i, j :: 0 <= i < j < |keys| ==> keys[i] != keys[j]
    ensures var r := CsvEffect(keys, evs, row).0;
      r.Success? ==> Wrapped(r.value) == CsvRecords(NonAbsences(keys, evs), evs, row)
    decreases |keys|
  {
    if keys != [] {
      var k := keys[0];
      var r := row(k, evs[k]);
      assert forall i :: 0 <= i < |keys[1..]| ==> keys[1..][i] == keys[i + 1];
      assert k !in keys[1..];
      if r.Success? {
        if r.value.None? {
          CsvEffectRecords(keys[1..], evs, row);
          assert NonAbsences(keys, evs) == NonAbsences(keys[1..], evs);
        } else {
          CsvEffectAway(keys[1..], evs, k, FixUni(evs[k]), row);
          CsvEffectRecords(keys[1..], evs, row);
          var rows := NonAbsences(keys[1..], evs);
          assert NonAbsences(keys, evs) == [k] + rows;
          var rest := CsvEffect(keys[1..], evs, row).0;
          assert CsvEffect(keys, evs, row).0 == if rest.Failure? then rest else Success([r.value.value] + rest.value);
          if rest.Success? {
            assert ([r.value.value] + rest.value)[1..] == rest.value;
            assert ([k] + rows)[1..] == rows;
            assert Wrapped([r.value.value] + rest.value) == [r] + Wrapped(rest.value);
            assert CsvRecords([k] + rows, evs, row) == [r] + CsvRecords(rows, evs, row);
          }
        }
      }
    }
  }

  /** A rewrite of an event whose key is not walked leaves the rows alone. */
  lemma {:induction false} CsvEffectAway(keys: seq<Key>, evs: map<Key, EventVal>, k: Key, e: EventVal,
                                         row: RowMaker)
    requires forall i :: 0 <= i < |keys| ==> keys[i] in evs
    requires RowRule(row)
    requires k in evs && k !in keys
    ensures CsvEffect(keys, evs[k := e], row).0 == CsvEffect(keys, evs, row).0
    decreases |keys|
  {
    if keys != [] {
      var k0 := keys[0];
      assert k0 != k && evs[k := e][k0] == evs[k0];
      assert forall i :: 0 <= i < |keys[1..]| ==> keys[1..][i] == keys[i + 1];
      var r := row(k0, evs[k0]);
      if r.Success? {
        if r.value.None? {
          CsvEffectAway(keys[1..], evs, k, e, row);
        } else {
          var evs2 := evs[k0 := FixUni(evs[k0])];
          assert evs[k := e][k0 := FixUni(evs[k := e][k0])] == evs2[k := e];
          CsvEffectAway(keys[1..], evs2, k, e, row);
        }
      }
    }
  }

  // ---------------------------------------------------------------------
  // the listing

  /** The name under which the listing shows a non-absence event: the venue
      alone when it is the title, the title alone for rehearsals and board
      meetings at the rehearsal hall, else "title at venue". */
  function EventName(title: string, venue: Option<string>): (r: string)
    ensures StartsWith(r, title)
  {
    if venue == Some(title) then title
    else if Contains(title, "Rehearsal") && venue == Some("Lewis & Clark Evt Ctr") then title
    else if title == "Board Meeting" && venue == Some("Lewis & Clark Evt Ctr") then title
    else title + " at " + Show(venue)
  }

  /** The uniform in words after the name, or nothing when there is none. */
  function UniformWords(uni: Option<string>): string {
    if uni.Some? && uni.value != "" && uni.value != "- none -" then
      if uni.value == "singout" then ", UNIFORM: black shirt, blue tie"
      else if uni.value == "contest" then ", UNIFORM: black shirt, blue tie, blue vest"
      else ", UNIFORM: " + uni.value
    else ""
  }

  /** The listed name of an event: its name followed by its uniform. */
  function DisplayName(title: string, venue: Option<string>, uni: Option<string>): string {
    EventName(title, venue) + UniformWords(uni)
  }

  /** The displayed name always begins with the title, and names a uniform
      exactly when the event has a real one. */
  lemma DisplayNameProps(title: string, venue: Option<string>, uni: Option<string>)
    ensures StartsWith(DisplayName(title, venue, uni), title)
    ensures uni.None? || uni.value == "" || uni.value == "- none -" ==>
      DisplayName(title, venue, uni) == (if venue == Some(title) then title
        else if (Contains(title, "Rehearsal") || title == "Board Meeting") && venue == Some("Lewis & Clark Evt Ctr") then title
        else title + " at " + Show(venue))
    ensures uni.Some? && uni.value != "" && uni.value != "- none -" && uni.value != "singout" && uni.value != "contest" ==>
      EndsWith(DisplayName(title, venue, uni), ", UNIFORM: " + uni.value)
  {
    NameStartsWithTitle(title, venue, uni);
    if uni.None? || uni.value == "" || uni.value == "- none -" {
      NoUniformWords(title, venue, uni);
    }
    if uni.Some? && uni.value != "" && uni.value != "- none -" && uni.value != "singout" && uni.value != "contest" {
      OtherUniformWords(title, venue, uni);
    }
  }

  lemma NameStartsWithTitle(title: string, venue: Option<string>, uni: Option<string>)
    ensures StartsWith(DisplayName(title, venue, uni), title)
  {
    var name := EventName(title, venue);
    var d := name + UniformWords(uni);
    assert d[..|name|] == name;
    assert d[..|title|] == name[..|title|];
  }

  lemma NoUniformWords(title: string, venue: Option<string>, uni: Option<string>)
    requires uni.None? || uni.value == "" || uni.value == "- none -"
    ensures DisplayName(title, venue, uni) == (if venue == Some(title) then title
      else if (Contains(title, "Rehearsal") || title == "Board Meeting") && venue == Some("Lewis & Clark Evt Ctr") then title
      else title + " at " + Show(venue))
  {
    assert UniformWords(uni) == "";
    assert EventName(title, venue) + "" == EventName(title, venue);
  }

  lemma OtherUniformWords(title: string, venue: Option<string>, uni: Option<string>)
    requires uni.Some? && uni.value != "" && uni.value != "- none -" && uni.value != "singout" && uni.value != "contest"
    ensures EndsWith(DisplayName(title, venue, uni), ", UNIFORM: " + uni.value)
  {
    var w := UniformWords(uni);
    assert w == ", UNIFORM: " + uni.value;
    var d := EventName(title, venue) + w;
    assert d[|d| - |w|..] == w;
  }

  // ---------------------------------------------------------------------
  // output file names

  /** The last index of `c` in `s`, or -1. */
  function LastIndexOf(s: string, c: char): (i: int)
    ensures -1 <= i < |s|
    ensures i >= 0 ==> s[i] == c
    ensures forall j :: i < j < |s| ==> s[j] != c
    decreases |s|
  {
    if s == [] then -1
    else if s[|s| - 1] == c then |s| - 1
    else LastIndexOf(s[..|s| - 1], c)
  }

  /** `os.path.splitext(p)[1]`: from the last dot of the last path component
      on, unless that component is only dots before it. */
  function SplitExt(p: string): string {
    var sep := LastIndexOf(p, '/');
    var dot := LastIndexOf(p, '.');
    if dot > sep && exists i :: sep < i < dot && p[i] != '.' then p[dot..] else ""
  }

  /** A plain base name, a dot and an extension split at that dot. */
  lemma SplitExtOf(base: string, ext: string)
    requires base != [] && base[0] != '.'
    requires '.' !in ext && '/' !in ext && '/' !in base
    ensures SplitExt(base + "." + ext) == "." + ext
  {
    var p := base + "." + ext;
    var dot := |base|;
    assert p[dot] == '.';
    assert forall j :: dot < j < |p| ==> p[j] == ext[j - dot - 1];
    assert LastIndexOf(p, '.') == dot;
    assert forall j :: 0 <= j < |p| ==> p[j] != '/' by {
      forall j | 0 <= j < |p| ensures p[j] != '/' {
        if j < |base| {
          assert p[j] == base[j];
        } else if j > |base| {
          assert p[j] == ext[j - dot - 1];
        }
      }
    }
    assert LastIndexOf(p, '/') == -1;
    assert p[0] == base[0];
    assert p[dot..] == "." + ext;
  }
}
