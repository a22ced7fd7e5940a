/** A changed-set feed read back by the loader. The engine writes each
    changed event as a feed record (`cal_events`); the loader reads feed
    components back into events (`do_cal`). The description and location
    encodings are each other's inverse for values without newlines, so an
    event republished and reloaded compares equal to itself. */
module FeedRoundTrip {
  import opened Util
  import opened Calendar
  import opened Events
  import opened TunerEvents
  import opened EventFormats

  /** The component a written record is read back as; `gen` is the uid the
      writer generated when the event had none. A record without a location
      has no LOCATION property, which the loader cannot read. */
  function Reread(r: FeedEvent, gen: string): Option<Component> {
    if r.location.None? then None
    else Some(Component("VEVENT", if r.uid.Kept? then r.uid.uid else gen,
                        r.dtstart, r.dtend, r.description, r.location.value, r.summary))
  }

  /** What a description line gives back for a cell: its string, or "" for
      a missing one. */
  function Given(s: Slot): string {
    if s.Text? then s.s else ""
  }

  lemma MarkedLine(prefix: string, s: string)
    ensures StartsWith(prefix + s, prefix) && (prefix + s)[|prefix|..] == s
  {
    assert (prefix + s)[..|prefix|] == prefix;
  }

  /** The description decoder gives back the uniform and the type the
      encoder wrote, when neither holds a newline; a missing cell comes back
      as "". */
  lemma DescriptionRoundTrip(v: EventVal)
    requires !v.uni.Null? && !v.etype.Null?
    requires v.uni.Text? ==> '\n' !in v.uni.s
    requires v.etype.Text? ==> '\n' !in v.etype.s
    ensures var d := FeedDescription(v);
      d.Success? && DescField(d.value, "UNIFORM:") == Given(v.uni) && DescField(d.value, "EVENT_TYPE:") == Given(v.etype)
  {
    var u := DescLine(v.uni, "UNIFORM:").value;
    var t := DescLine(v.etype, "EVENT_TYPE:").value;
    var lines := u + t;
    if |lines| > 0 {
      assert forall i :: 0 <= i < |lines| ==> '\n' !in lines[i];
      SplitJoin(lines, '\n');
      var d := Join(lines, '\n');
      assert Split(d, '\n') == lines;
      if v.uni.Text? {
        MarkedLine("UNIFORM:", v.uni.s);
        PrefixesExclusive(u[0]);
      }
      if v.etype.Text? {
        MarkedLine("EVENT_TYPE:", v.etype.s);
        PrefixesExclusive(t[0]);
      }
      if v.uni.Text? && v.etype.Text? {
        assert lines == [u[0], t[0]] && lines[..1] == [u[0]];
        assert LastField(lines, "UNIFORM:") == LastField([u[0]], "UNIFORM:");
      } else if v.uni.Text? {
        assert lines == [u[0]] && lines[..0] == [];
        assert LastField(lines, "EVENT_TYPE:") == LastField([], "EVENT_TYPE:");
      } else {
        assert lines == [t[0]] && lines[..0] == [];
        assert LastField(lines, "UNIFORM:") == LastField([], "UNIFORM:");
      }
    }
  }

  /** Three newline-free lines joined by newlines split back into them. */
  lemma ThreeLines(a: string, b: string, c: string)
    requires '\n' !in a && '\n' !in b && '\n' !in c
    ensures Split(a + "\n" + b + "\n" + c, '\n') == [a, b, c]
    ensures Split(b + "\n" + c, '\n') == [b, c]
  {
    assert Join([b, c], '\n') == b + "\n" + c by {
      assert Join([c], '\n') == c;
      assert [b, c][1..] == [c];
    }
    assert Join([a, b, c], '\n') == a + "\n" + b + "\n" + c by {
      assert [a, b, c][1..] == [b, c];
    }
    SplitJoin([a, b, c], '\n');
    SplitJoin([b, c], '\n');
  }

  /** The location decoder gives back the venue and its two address lines
      the encoder wrote, when none holds a newline and the venue has no
      surrounding whitespace; an address cell holding None comes back as
      the string "None". */
  lemma LocationRoundTrip(venue: string, table: Addresses)
    requires venue in table && |table[venue]| == 2
    requires '\n' !in venue && '\n' !in Show(table[venue][0]) && '\n' !in Show(table[venue][1])
    requires venue == [] || (!IsSpace(venue[0]) && !IsSpace(venue[|venue| - 1]))
    ensures var a1, a2 := Show(table[venue][0]), Show(table[venue][1]);
      var loc := FeedLocation(Some(venue), table);
      loc.Success? && loc.value.Some?
      && DecodeLocation(loc.value.value) == Place(venue, Some([a1, a2]), a1 + "\n" + a2)
  {
    var a1, a2 := Show(table[venue][0]), Show(table[venue][1]);
    var addr := a1 + "\n" + a2;
    var loc := venue + "\n" + addr;
    assert FeedLocation(Some(venue), table) == Success(Some(loc)) by {
      assert venue + "\n" + a1 + "\n" + a2 == loc;
    }
    DecodeThree(venue, a1, a2);
  }

  /** The location decoder on a venue line followed by two address lines. */
  lemma DecodeThree(venue: string, a1: string, a2: string)
    requires '\n' !in venue && '\n' !in a1 && '\n' !in a2
    requires venue == [] || (!IsSpace(venue[0]) && !IsSpace(venue[|venue| - 1]))
    ensures DecodeLocation(venue + "\n" + (a1 + "\n" + a2)) == Place(venue, Some([a1, a2]), a1 + "\n" + a2)
  {
    var addr := a1 + "\n" + a2;
    var loc := venue + "\n" + addr;
    assert '\n' in loc by {
      assert loc[|venue|] == '\n';
    }
    assert Split(loc, '\n')[0] == venue by {
      ThreeLines(venue, a1, a2);
      assert loc == venue + "\n" + a1 + "\n" + a2;
    }
    assert Split(addr, '\n') == [a1, a2] by {
      ThreeLines(venue, a1, a2);
    }
    StripNoop(venue);
    var p := DecodeLocation(loc);
    assert p.addr == loc[|venue| + 1..];
  }

  /** A record whose start is not at hour 0, read from a calendar whose
      name does not contain "abs", comes back under its own key. */
  lemma KeyRoundTrip(k: Key, v: EventVal, table: Addresses, gen: string, mem: string, from: Instant, to: Instant)
    requires FeedRecord(k, v, table).Success? && FeedRecord(k, v, table).value.location.Some?
    requires k.0.hour != 0 && !Contains(mem, "abs") && InWindow(k, from, to)
    ensures var c := Reread(FeedRecord(k, v, table).value, gen);
      c.Some? && FeedKey(mem, c.value, from, to) == Some(k)
  {
  }

  /** A record whose start is at hour 0 comes back as an all-day event: both
      ends move to midnight of their dates. */
  lemma AllDayKey(k: Key, v: EventVal, table: Addresses, gen: string, mem: string, from: Instant, to: Instant)
    requires FeedRecord(k, v, table).Success? && FeedRecord(k, v, table).value.location.Some?
    requires k.0.hour == 0
    ensures var c := Reread(FeedRecord(k, v, table).value, gen);
      var back := (StartOfDay(k.0.date), StartOfDay(k.1.date));
      c.Some? && FeedKey(mem, c.value, from, to) == (if InWindow(back, from, to) then Some(back) else None)
  {
  }

  /** An event republished in the feed and read back into an empty slot
      of the loader is stored under its key, with its title, venue and
      uniform, so that comparing it with the original finds no change; its
      venue's address lines enter the reader's venue table. */
  lemma Republished(k: Key, v: EventVal, table: Addresses, gen: string, st: CalState, mem: string, f: Flags,
                    from: Instant, to: Instant)
    requires v.venue.Some? && v.venue.value in table && |table[v.venue.value]| == 2
    requires '\n' !in v.venue.value && '\n' !in Show(table[v.venue.value][0]) && '\n' !in Show(table[v.venue.value][1])
    requires v.venue.value == [] || (!IsSpace(v.venue.value[0]) && !IsSpace(v.venue.value[|v.venue.value| - 1]))
    requires !v.uni.Null? && !v.etype.Null?
    requires v.uni.Text? ==> '\n' !in v.uni.s
    requires v.etype.Text? ==> '\n' !in v.etype.s
    requires k.0.hour != 0 && !Contains(mem, "abs") && InWindow(k, from, to)
    requires k !in st.evs && TypeWanted(Given(v.etype), f)
    ensures FeedRecord(k, v, table).Success?
    ensures var c := Reread(FeedRecord(k, v, table).value, gen);
      c.Some?
      && var st' := CalStep(st, mem, c.value, f, from, to);
         k in st'.evs && !Differs(v, st'.evs[k]) && st'.evs[k].title == v.title
         && st'.evs[k].uid == Some(if v.uid.Some? then v.uid.value else gen)
         && st'.nev == st.nev + 1
         && st'.addrs == st.addrs[v.venue.value := [Some(Show(table[v.venue.value][0])), Some(Show(table[v.venue.value][1]))]]
  {
    var a1, a2 := Show(table[v.venue.value][0]), Show(table[v.venue.value][1]);
    LocationRoundTrip(v.venue.value, table);
    DescriptionRoundTrip(v);
    KeyRoundTrip(k, v, table, gen, mem, from, to);
    RereadParts(k, v, table, gen);
    var c := Reread(FeedRecord(k, v, table).value, gen).value;
    StoreNew(st, k, c, f, v.venue.value, a1, a2, Given(v.uni), Given(v.etype));
    var e := EventVal(v.title, Some(v.venue.value), Text(Given(v.uni)), Text(Given(v.etype)), Some(c.uid),
                      Some(a1 + "\n" + a2), Unset);
    assert UniView(e.uni) == UniView(v.uni);
  }

  /** The parts of a written record that the reader sees. */
  lemma RereadParts(k: Key, v: EventVal, table: Addresses, gen: string)
    requires FeedLocation(v.venue, table).Success? && FeedLocation(v.venue, table).value.Some?
    requires FeedDescription(v).Success?
    ensures FeedRecord(k, v, table).Success?
    ensures var c := Reread(FeedRecord(k, v, table).value, gen);
      c.Some? && c.value.location == FeedLocation(v.venue, table).value.value
      && c.value.description == FeedDescription(v).value && c.value.summary == v.title
      && c.value.uid == (if v.uid.Some? then v.uid.value else gen)
  {
  }

  /** A component under a free key, whose type is wanted, is stored with
      its decoded venue, uniform and type. */
  lemma StoreNew(st: CalState, k: Key, c: Component, f: Flags, venue: string, a1: string, a2: string, uni: string, typ: string)
    requires DecodeLocation(c.location) == Place(venue, Some([a1, a2]), a1 + "\n" + a2)
    requires DescField(c.description, "UNIFORM:") == uni && DescField(c.description, "EVENT_TYPE:") == typ
    requires k !in st.evs && TypeWanted(typ, f)
    ensures FeedStore(st, k, c, f) == CalState(
      st.evs[k := EventVal(c.summary, Some(venue), Text(uni), Text(typ), Some(c.uid), Some(a1 + "\n" + a2), Unset)],
      st.addrs[venue := [Some(a1), Some(a2)]], st.nev + 1)
  {
    assert Lift([a1, a2]) == [Some(a1), Some(a2)];
  }
}
