/** The change engine (`event_changes`): it compares the events of the
    current loader with those of the old one, collects the changed events --
    writing their status into the very event records the loaders hold -- and
    turns the changed set into a calendar feed or a spreadsheet. */
module Changes {
  import opened Util
  import opened Calendar
  import opened Events
  import opened TunerEvents
  import opened EventFormats

  /** The value snapshot of an optional loader's events. */
  function Prior(l: Loader?): Option<map<Key, EventVal>>
    reads l, if l != null then l.events.Values else {}
  {
    if l == null then None else Some(Snap(l.events))
  }

  /** No event object belongs to both loaders. */
  ghost predicate Apart(l1: Loader, l2: Loader?)
    reads l1, l2
  {
    l2 != null ==> forall k1, k2 :: k1 in l1.events && k2 in l2.events ==> l1.events[k1] != l2.events[k2]
  }

  /** Two loaders never share an event record: each holds only records it
      made itself. */
  lemma LoadersApart(l1: Loader, l2: Loader)
    requires l1.Valid() && l2.Valid() && l1 != l2
    ensures Apart(l1, l2) && Distinct(l1.events) && Distinct(l2.events)
  {
  }

  /** What writing the feed gives: the number of events and, when there is
      at least one, the records of the file. */
  function CalSpec(order: seq<Key>, evs: map<Key, EventVal>, table: Addresses): (r: Result<CalOutput, Error>)
    requires forall i :: 0 <= i < |order| ==> order[i] in evs
  {
    var recs := Records(order, evs, table);
    if recs.Failure? then Failure(recs.error)
    else Success(CalOutput(|order|, if |order| > 0 then Some(recs.value) else None))
  }

  /** The feed counts every changed event and is written only when there is
      one; its records are the events' records in key order. */
  lemma CalSpecProps(order: seq<Key>, evs: map<Key, EventVal>, table: Addresses)
    requires forall i :: 0 <= i < |order| ==> order[i] in evs
    ensures var r := CalSpec(order, evs, table);
      r.Success? ==>
        r.value.count == |order| && (r.value.file.None? <==> |order| == 0)
        && (r.value.file.Some? ==>
              |r.value.file.value| == |order|
              && forall i :: 0 <= i < |order| ==>
                   Success(r.value.file.value[i]) == FeedRecord(order[i], evs[order[i]], table))
    ensures CalSpec(order, evs, table).Failure? <==>
      exists i :: 0 <= i < |order| && FeedRecord(order[i], evs[order[i]], table).Failure?
  {
    RecordsProps(order, evs, table);
  }

  /** What the spreadsheet export gives: nothing for an empty changed set,
      else the rows written. */
  datatype CsvOutput = CsvOutput(count: nat, file: Option<seq<CsvRow>>)

  function CsvSpec(order: seq<Key>, evs: map<Key, EventVal>, table: Addresses, utc: Instant -> Instant)
    : (r: (Result<CsvOutput, Error>, map<Key, EventVal>))
    requires forall i :: 0 <= i < |order| ==> order[i] in evs
    ensures order == [] ==> r == (Success(CsvOutput(0, None)), evs)
  {
    if order == [] then (Success(CsvOutput(0, None)), evs)
    else
      var (rows, out) := CsvEffect(order, evs, RowsOf(table, utc));
      (if rows.Failure? then Failure(rows.error) else Success(CsvOutput(|rows.value|, Some(rows.value))), out)
  }

  /** The first `i` keys of a key order, as a set. */
  function Taken(keys: seq<Key>, i: nat): (r: set<Key>)
    requires i <= |keys|
    ensures forall j :: 0 <= j < i ==> keys[j] in r
  {
    set j | 0 <= j < i :: keys[j]
  }

  /** The keys before `i` are in `done` and the others not: then the key
      at `i` is new, and adding it moves the boundary by one. */
  lemma OneMore(keys: seq<Key>, i: nat, done: set<Key>)
    requires i < |keys| && forall a, b :: 0 <= a < b < |keys| ==> keys[a] != keys[b]
    requires forall j :: 0 <= j < i ==> keys[j] in done
    requires forall j :: i <= j < |keys| ==> keys[j] !in done
    ensures keys[i] !in done
    ensures forall j :: 0 <= j < i + 1 ==> keys[j] in done + {keys[i]}
    ensures forall j :: i + 1 <= j < |keys| ==> keys[j] !in done + {keys[i]}
  {
  }

  /** Once every key of an order is done, so is every key it lists. */
  lemma AllDone(keys: seq<Key>, done: set<Key>, ks: set<Key>)
    requires forall k :: k in keys <==> k in ks
    requires forall j :: 0 <= j < |keys| ==> keys[j] in done
    ensures ks <= done
  {
    forall k | k in ks
      ensures k in done
    {
      var j :| 0 <= j < |keys| && keys[j] == k;
    }
  }

  /** Taking one more key of an order without repeats adds a key not yet
      taken. */
  lemma TakenStep(keys: seq<Key>, i: nat)
    requires i < |keys| && forall a, b :: 0 <= a < b < |keys| ==> keys[a] != keys[b]
    ensures Taken(keys, i + 1) == Taken(keys, i) + {keys[i]} && keys[i] !in Taken(keys, i)
  {
  }

  /** All of an order is taken: its keys. */
  lemma TakenAll(keys: seq<Key>, ks: set<Key>)
    requires forall k :: k in keys <==> k in ks
    ensures Taken(keys, |keys|) == ks
  {
    forall k | k in ks
      ensures k in Taken(keys, |keys|)
    {
      var j :| 0 <= j < |keys| && keys[j] == k;
    }
  }

  class EventChanges {
    /** the changed events */
    var events: map<Key, Event>
    /** the venue table of the current loader */
    const venueAddrs: Addresses
    /** the current loader and the old one, if any */
    const class1: Loader
    const class2: Loader?

    constructor (class1: Loader, class2: Loader?)
      ensures events == map[] && this.class1 == class1 && this.class2 == class2
      ensures venueAddrs == class1.venueAddrs
    {
      events := map[];
      venueAddrs := class1.venueAddrs;
      this.class1 := class1;
      this.class2 := class2;
    }

    /** The venue table the spreadsheet export reads: the old loader's when
        there is one. */
    function CsvTable(): Addresses
      reads this, class1, class2
    {
      if class2 == null then class1.venueAddrs else class2.venueAddrs
    }

    /** `add`: the current event goes in as it is. */
    method Add(k: Key, ev: Event)
      modifies this
      ensures events == old(events)[k := ev]
    {
      events := events[k := ev];
    }

    /** `modify`: the current event goes in, marked modified. (The field
        name the source passes along serves only its message.) */
    method Modify(k: Key, ev: Event)
      modifies this, ev
      ensures events == old(events)[k := ev]
      ensures ev.Val() == old(ev.Val()).(status := Modified)
    {
      events := events[k := ev];
      ev.status := Modified;
    }

    /** `drop`: the old event goes in, marked cancelled, unless it was
        entered by hand in Google Calendar. */
    method Drop(k: Key, ev: Event)
      modifies this, ev
      ensures Protected(old(ev.Val())) ==> events == old(events) && ev.Val() == old(ev.Val())
      ensures !Protected(old(ev.Val())) ==>
        events == old(events)[k := ev] && ev.Val() == old(ev.Val()).(status := Cancelled)
    {
      if ev.uid.Some? && EndsWith(ev.uid.value, "google.com") {
        return;
      }
      events := events[k := ev];
      ev.status := Cancelled;
    }

    /** The three field comparisons of `comp_events`: `modify` once for
        each field that differs, which marks the event modified however many
        fields differ. */
    method ModifyFields(k: Key, ev: Event, was: EventVal)
      modifies this, ev
      ensures Differs(old(ev.Val()), was) ==>
        events == old(events)[k := ev] && ev.Val() == old(ev.Val()).(status := Modified)
      ensures !Differs(old(ev.Val()), was) ==> events == old(events) && ev.Val() == old(ev.Val())
    {
      if ev.title != was.title {
        Modify(k, ev);
      }
      if ev.venue != was.venue {
        Modify(k, ev);
      }
      if UniView(ev.uni) != UniView(was.uni) {
        Modify(k, ev);
      }
    }

    /** The comparison of one current event with its old version: the
        event goes into the changed set, with its new status, exactly when
        `CurrentChange` says so. */
    method CompareOne(k: Key, ghost prior: Option<EventVal>)
      requires k in class1.events
      requires prior == if class2 != null && k in class2.events then Some(class2.events[k].Val()) else None
      modifies this, class1.events[k]
      ensures var c := CurrentChange(old(class1.events[k].Val()), prior);
        (c.None? ==> events == old(events) && class1.events[k].Val() == old(class1.events[k].Val()))
        && (c.Some? ==> events == old(events)[k := class1.events[k]] && class1.events[k].Val() == c.value)
      ensures Distinct(class1.events) ==>
        forall k' :: k' in class1.events && k' != k ==> class1.events[k'].Val() == old(class1.events[k'].Val())
      ensures Apart(class1, class2) ==> Prior(class2) == old(Prior(class2))
    {
      var ev := class1.events[k];
      if class2 == null || k !in class2.events {
        Add(k, ev);
      } else {
        ModifyFields(k, ev, class2.events[k].Val());
      }
    }

    /** The first loop of `comp_events`: every current event, in key
        order, against its old version, with the fate `CurrentChange` gives. */
    method CompareCurrent(keys: seq<Key>, ghost cur: map<Key, EventVal>, ghost prior: Option<map<Key, EventVal>>)
      requires (forall k :: k in keys <==> k in class1.events) && (forall i, j :: 0 <= i < j < |keys| ==> keys[i] != keys[j])
      requires events == map[] && Distinct(class1.events) && Apart(class1, class2)
      requires cur == Snap(class1.events) && prior == Prior(class2)
      modifies this, class1.events.Values
      ensures events.Keys <= class1.events.Keys && AllSettled(events, Snap(class1.events), cur, prior)
      ensures prior == Prior(class2)
      ensures class1.events == old(class1.events) && (class2 != null ==> class2.events == old(class2.events))
    {
      var i := 0;
      ghost var done: set<Key> := {};
      while i < |keys|
        invariant 0 <= i <= |keys|
        invariant Compared(done, cur, prior) && prior == Prior(class2)
        invariant forall j :: 0 <= j < i ==> keys[j] in done
        invariant forall j :: i <= j < |keys| ==> keys[j] !in done
      {
        OneMore(keys, i, done);
        CompareNext(keys[i], done, cur, prior);
        done := done + {keys[i]};
        i := i + 1;
      }
      AllDone(keys, done, class1.events.Keys);
      CompareDone(done, cur, prior);
    }

    /** Once every current key is compared, every current event is settled. */
    lemma CompareDone(done: set<Key>, cur: map<Key, EventVal>, prior: Option<map<Key, EventVal>>)
      requires Compared(done, cur, prior) && done == class1.events.Keys
      ensures events.Keys <= class1.events.Keys && AllSettled(events, Snap(class1.events), cur, prior)
    {
      forall k | k in class1.events
        ensures Settled(events, Snap(class1.events), k, cur[k], CurrentChange(cur[k], PriorOf(prior, k)))
      {
        assert Handled(events, k, cur[k], CurrentChange(cur[k], PriorOf(prior, k)));
      }
    }

    /** The first loop of `comp_events` over the current keys in ascending
        order. */
    method CompareSorted(ghost cur: map<Key, EventVal>, ghost prior: Option<map<Key, EventVal>>)
      requires events == map[] && Distinct(class1.events) && Apart(class1, class2)
      requires cur == Snap(class1.events) && prior == Prior(class2)
      modifies this, class1.events.Values
      ensures events.Keys <= class1.events.Keys && AllSettled(events, Snap(class1.events), cur, prior)
      ensures prior == Prior(class2)
      ensures class1.events == old(class1.events) && (class2 != null ==> class2.events == old(class2.events))
    {
      var keys := SortKeys(class1.events.Keys);
      CompareCurrent(keys, cur, prior);
    }

    /** `v` holds the values of the current loader's events. */
    ghost predicate Current(v: map<Key, EventVal>)
      reads class1, class1.events.Values
    {
      v.Keys == class1.events.Keys && forall k :: k in class1.events ==> v[k] == class1.events[k].Val()
    }

    /** The changed set `e` and the current loader hold the event under `k`
        as the rule `c` says: in the set and updated, or out and untouched. */
    ghost predicate Handled(e: map<Key, Event>, k: Key, was: EventVal, c: Option<EventVal>)
      reads class1, class1.events.Values
    {
      k in class1.events
      && (c.Some? ==> k in e && e[k] == class1.events[k] && class1.events[k].Val() == c.value)
      && (c.None? ==> k !in e && class1.events[k].Val() == was)
    }

    /** `Handled`, with the current loader's values given by the snapshot
        `v`. */
    ghost predicate Settled(e: map<Key, Event>, v: map<Key, EventVal>, k: Key, was: EventVal, c: Option<EventVal>)
      reads class1
    {
      k in class1.events && k in v
      && (c.Some? ==> k in e && e[k] == class1.events[k] && v[k] == c.value)
      && (c.None? ==> k !in e && v[k] == was)
    }

    /** Every current event is settled in `e`. */
    ghost predicate AllSettled(e: map<Key, Event>, v: map<Key, EventVal>, cur: map<Key, EventVal>, prior: Option<map<Key, EventVal>>)
      reads class1
    {
      cur.Keys == class1.events.Keys
      && forall k :: k in class1.events ==> Settled(e, v, k, cur[k], CurrentChange(cur[k], PriorOf(prior, k)))
    }

    /** The keys in `done` are settled, the other current events untouched. */
    ghost predicate Compared(done: set<Key>, cur: map<Key, EventVal>, prior: Option<map<Key, EventVal>>)
      reads this, class1, class1.events.Values
    {
      cur.Keys == class1.events.Keys && done <= class1.events.Keys && events.Keys <= done
      && (forall k :: k in class1.events && k !in done ==> class1.events[k].Val() == cur[k])
      && (forall k :: k in done ==> Handled(events, k, cur[k], CurrentChange(cur[k], PriorOf(prior, k))))
    }

    /** One step of the first loop of `comp_events`. */
    method CompareNext(k: Key, ghost done: set<Key>, ghost cur: map<Key, EventVal>, ghost prior: Option<map<Key, EventVal>>)
      requires k in class1.events && k !in done
      requires Distinct(class1.events) && Apart(class1, class2) && prior == Prior(class2)
      requires Compared(done, cur, prior)
      modifies this, class1.events[k]
      ensures Compared(done + {k}, cur, prior) && prior == Prior(class2)
    {
      assert k !in events && class1.events[k].Val() == cur[k];
      label before:
      CompareOne(k, PriorOf(prior, k));
      assert Handled(events, k, cur[k], CurrentChange(cur[k], PriorOf(prior, k)));
      forall k' | k' in done
        ensures Handled(events, k', cur[k'], CurrentChange(cur[k'], PriorOf(prior, k')))
      {
        assert old@before(Handled(events, k', cur[k'], CurrentChange(cur[k'], PriorOf(prior, k'))));
      }
    }

    /** The second loop of `comp_events`: every old event whose key the
        current loader lacks, in key order, with the fate `GoneChange` gives;
        what the first loop put in stays. */
    method DropGone(keys: seq<Key>, ghost prior: map<Key, EventVal>)
      requires class2 != null
      requires (forall k :: k in keys <==> k in class2.events) && (forall i, j :: 0 <= i < j < |keys| ==> keys[i] != keys[j])
      requires Distinct(class2.events) && Apart(class1, class2)
      requires prior == Snap(class2.events) && events.Keys <= class1.events.Keys
      modifies this, class2.events.Values
      ensures Dropped(class2.events.Keys, prior, old(events))
      ensures class1.events == old(class1.events) && class2.events == old(class2.events)
    {
      var i := 0;
      ghost var seen: set<Key> := {};
      ghost var kept := events;
      while i < |keys|
        invariant 0 <= i <= |keys|
        invariant Dropped(seen, prior, kept) && seen == Taken(keys, i)
      {
        TakenStep(keys, i);
        DropNext(keys[i], seen, prior, kept);
        seen := seen + {keys[i]};
        i := i + 1;
      }
      TakenAll(keys, class2.events.Keys);
    }

    /** The second loop of `comp_events` over the old keys in ascending
        order. */
    method DropSorted(ghost prior: map<Key, EventVal>)
      requires class2 != null && Distinct(class2.events) && Apart(class1, class2)
      requires prior == Snap(class2.events) && events.Keys <= class1.events.Keys
      modifies this, class2.events.Values
      ensures Dropped(class2.events.Keys, prior, old(events))
      ensures class1.events == old(class1.events) && class2.events == old(class2.events)
    {
      var keys := SortKeys(class2.events.Keys);
      DropGone(keys, prior);
    }

    /** The old loader's event under `k` against the changed set `e`, as
        the rule `c` says: in the set and updated, or out and untouched. */
    ghost predicate Gone(e: map<Key, Event>, k: Key, was: EventVal, c: Option<EventVal>)
      reads class2, if class2 != null then class2.events.Values else {}
    {
      class2 != null && k in class2.events
      && (c.Some? ==> k in e && e[k] == class2.events[k] && class2.events[k].Val() == c.value)
      && (c.None? ==> k !in e && class2.events[k].Val() == was)
    }

    /** The old keys in `seen` are settled, the other old events untouched,
        and what was in the changed set before, `kept`, is still there. */
    ghost predicate Dropped(seen: set<Key>, prior: map<Key, EventVal>, kept: map<Key, Event>)
      reads this, class1, class2, if class2 != null then class2.events.Values else {}
    {
      class2 != null && prior.Keys == class2.events.Keys && seen <= class2.events.Keys
      && kept.Keys <= class1.events.Keys
      && (forall k :: k in kept ==> k in events && events[k] == kept[k])
      && (forall k :: k in events && k !in kept ==> k in seen && k !in class1.events)
      && (forall k :: k in class2.events && (k in class1.events || k !in seen) ==> class2.events[k].Val() == prior[k])
      && (forall k :: k in seen && k !in class1.events ==> Gone(events, k, prior[k], GoneChange(prior[k])))
    }

    /** One step of the second loop of `comp_events`. */
    method DropNext(k: Key, ghost seen: set<Key>, ghost prior: map<Key, EventVal>, ghost kept: map<Key, Event>)
      requires class2 != null && k in class2.events && k !in seen
      requires Distinct(class2.events) && Apart(class1, class2)
      requires Dropped(seen, prior, kept)
      modifies this, class2.events[k]
      ensures Dropped(seen + {k}, prior, kept)
    {
      if k !in class1.events {
        assert k !in events && class2.events[k].Val() == prior[k];
        label before:
        Drop(k, class2.events[k]);
        assert Gone(events, k, prior[k], GoneChange(prior[k]));
        forall k' | k' in seen && k' !in class1.events
          ensures Gone(events, k', prior[k'], GoneChange(prior[k']))
        {
          assert old@before(Gone(events, k', prior[k'], GoneChange(prior[k'])));
        }
      }
    }

    /** `comp_events`: the changed set is `Reconcile` of the two loaders'
        events; each changed event is the very record its loader holds, and
        that record now carries the status. */
    method CompEvents()
      requires events == map[] && Distinct(class1.events) && Apart(class1, class2)
      requires class2 != null ==> Distinct(class2.events)
      modifies this, class1.events.Values, if class2 != null then class2.events.Values else {}
      ensures var r := Reconcile(old(Snap(class1.events)), old(Prior(class2)));
        Snap(events) == r
        && Snap(class1.events) == Overlay(old(Snap(class1.events)), r, class1.events.Keys)
        && (class2 != null ==>
              Snap(class2.events) == Overlay(old(Snap(class2.events)), r, class2.events.Keys - class1.events.Keys))
      ensures forall k :: k in events ==>
        if k in class1.events then events[k] == class1.events[k]
        else class2 != null && k in class2.events && events[k] == class2.events[k]
      ensures Distinct(events)
    {
      ghost var cur := Snap(class1.events);
      ghost var prior := Prior(class2);
      CompareSorted(cur, prior);
      ghost var first := events;
      ghost var v := Snap(class1.events);
      if class2 != null {
        DropAll(first, v, cur, prior.value);
      }
      Conclude(first, v, cur, prior);
    }

    /** The second loop of `comp_events`, run when there is an old loader;
        it leaves the current loader's events alone. */
    method DropAll(ghost first: map<Key, Event>, ghost v: map<Key, EventVal>,
                   ghost cur: map<Key, EventVal>, ghost prior: map<Key, EventVal>)
      requires class2 != null && Apart(class1, class2) && Distinct(class2.events) && prior == Snap(class2.events)
      requires first == events && first.Keys <= class1.events.Keys
      requires Current(v)
      modifies this, class2.events.Values
      ensures Current(v)
      ensures Dropped(class2.events.Keys, prior, first)
      ensures class1.events == old(class1.events) && class2.events == old(class2.events)
    {
      ApartValues();
      DropSorted(prior);
      forall k | k in class1.events
        ensures class1.events[k].Val() == v[k]
      {
        assert class1.events[k] in old(class1.events.Values);
      }
    }

    /** The two loaders share no event object. */
    lemma ApartValues()
      requires class2 != null && Apart(class1, class2)
      ensures class1.events.Values !! class2.events.Values
    {
      forall e | e in class1.events.Values
        ensures e !in class2.events.Values
      {
        var k1 :| k1 in class1.events && class1.events[k1] == e;
      }
    }

    /** What both loops leave, stated on the loaders' snapshots: `first` is
        the changed set after the first loop. */
    lemma Conclude(first: map<Key, Event>, v: map<Key, EventVal>, cur: map<Key, EventVal>, prior: Option<map<Key, EventVal>>)
      requires Distinct(class1.events) && Apart(class1, class2) && (class2 != null ==> Distinct(class2.events))
      requires (prior.None? <==> class2 == null) && (prior.Some? ==> prior.value.Keys == class2.events.Keys)
      requires first.Keys <= class1.events.Keys && Current(v) && AllSettled(first, v, cur, prior)
      requires class2 == null ==> events == first
      requires class2 != null ==> Dropped(class2.events.Keys, prior.value, first)
      ensures var r := Reconcile(cur, prior);
        Snap(events) == r
        && Snap(class1.events) == Overlay(cur, r, class1.events.Keys)
        && (class2 != null ==> Snap(class2.events) == Overlay(prior.value, r, class2.events.Keys - class1.events.Keys))
      ensures forall k :: k in events ==>
        if k in class1.events then events[k] == class1.events[k]
        else class2 != null && k in class2.events && events[k] == class2.events[k]
      ensures Distinct(events)
    {
      var r := Reconcile(cur, prior);
      ReconcileFates(cur, prior);
      if class2 != null {
        DroppedFacts(class2.events.Keys, prior.value, first);
      }
      CurrentSnap(v);
      ChangedSet(first, v, cur, prior, r);
      ChangedAliases(first, v, cur, prior);
      ChangedDistinct();
      CurrentAfter(first, v, cur, prior, r);
      if class2 != null {
        PriorAfter(cur, prior.value, r);
      }
    }

    /** `Current` holds of exactly the snapshot of the current loader. */
    lemma CurrentSnap(v: map<Key, EventVal>)
      requires Current(v)
      ensures v == Snap(class1.events)
    {
      var w := Snap(class1.events);
      assert v.Keys == w.Keys;
      forall k | k in v
        ensures v[k] == w[k]
      {
      }
    }

    /** What `Dropped` says once every old key is seen. */
    lemma DroppedFacts(seen: set<Key>, prior: map<Key, EventVal>, kept: map<Key, Event>)
      requires class2 != null && seen == class2.events.Keys && Dropped(seen, prior, kept)
      ensures forall k :: k in kept ==> k in events && events[k] == kept[k]
      ensures forall k :: k in events && k !in kept ==> k !in class1.events && k in class2.events
      ensures forall k :: k in class2.events && k !in class1.events ==> Gone(events, k, prior[k], GoneChange(prior[k]))
      ensures forall k :: k in class2.events && k in class1.events ==> class2.events[k].Val() == prior[k]
    {
    }

    /** Each changed event is the record of the loader it came from. */
    lemma ChangedAliases(first: map<Key, Event>, v: map<Key, EventVal>, cur: map<Key, EventVal>, prior: Option<map<Key, EventVal>>)
      requires first.Keys <= class1.events.Keys && AllSettled(first, v, cur, prior)
      requires forall k :: k in first ==> k in events && events[k] == first[k]
      requires forall k :: k in events && k !in first ==> k !in class1.events && class2 != null && k in class2.events
      requires class2 != null ==> prior.Some? && prior.value.Keys == class2.events.Keys
      requires class2 != null ==>
        forall k :: k in class2.events && k !in class1.events ==> Gone(events, k, prior.value[k], GoneChange(prior.value[k]))
      ensures forall k :: k in events ==>
        if k in class1.events then events[k] == class1.events[k]
        else class2 != null && k in class2.events && events[k] == class2.events[k]
    {
      forall k | k in events
        ensures if k in class1.events then events[k] == class1.events[k]
          else class2 != null && k in class2.events && events[k] == class2.events[k]
      {
        if k in class1.events {
          assert Settled(first, v, k, cur[k], CurrentChange(cur[k], PriorOf(prior, k)));
        } else {
          assert Gone(events, k, prior.value[k], GoneChange(prior.value[k]));
        }
      }
    }

    /** Events taken from two loaders that share no event object are
        distinct objects. */
    lemma ChangedDistinct()
      requires Distinct(class1.events) && Apart(class1, class2)
      requires class2 != null ==> Distinct(class2.events)
      requires forall k :: k in events ==>
        if k in class1.events then events[k] == class1.events[k]
        else class2 != null && k in class2.events && events[k] == class2.events[k]
      ensures Distinct(events)
    {
      forall k1, k2 | k1 in events && k2 in events && k1 != k2
        ensures events[k1] != events[k2]
      {
        if k1 in class1.events && k2 !in class1.events {
          assert events[k2] == class2.events[k2];
        } else if k1 !in class1.events && k2 in class1.events {
          assert events[k1] == class2.events[k1];
        }
      }
    }

    /** After both loops the changed set holds the values of `r`. */
    lemma ChangedSet(first: map<Key, Event>, v: map<Key, EventVal>, cur: map<Key, EventVal>, prior: Option<map<Key, EventVal>>,
                     r: map<Key, EventVal>)
      requires Fates(cur, prior, r) && first.Keys <= class1.events.Keys
      requires v == Snap(class1.events) && AllSettled(first, v, cur, prior)
      requires (prior.None? <==> class2 == null) && (prior.Some? ==> prior.value.Keys == class2.events.Keys)
      requires forall k :: k in first ==> k in events && events[k] == first[k]
      requires forall k :: k in events && k !in first ==> k !in class1.events && class2 != null && k in class2.events
      requires class2 != null ==>
        forall k :: k in class2.events && k !in class1.events ==> Gone(events, k, prior.value[k], GoneChange(prior.value[k]))
      ensures Snap(events) == r
    {
      forall k
        ensures (k in events <==> k in r) && (k in events ==> events[k].Val() == r[k])
      {
        if k in class1.events {
          assert Settled(first, v, k, cur[k], CurrentChange(cur[k], PriorOf(prior, k)));
          assert Fate(r, k, CurrentChange(cur[k], PriorOf(prior, k)));
        } else if class2 != null && k in class2.events {
          assert Gone(events, k, prior.value[k], GoneChange(prior.value[k]));
          assert Fate(r, k, GoneChange(prior.value[k]));
        }
      }
    }

    /** After both loops the current loader's events carry the values of
        `r` where `r` has them. */
    lemma CurrentAfter(first: map<Key, Event>, v: map<Key, EventVal>, cur: map<Key, EventVal>, prior: Option<map<Key, EventVal>>,
                       r: map<Key, EventVal>)
      requires CurrentFates(cur, prior, r) && v == Snap(class1.events) && AllSettled(first, v, cur, prior)
      ensures Snap(class1.events) == Overlay(cur, r, class1.events.Keys)
    {
      forall k | k in class1.events
        ensures v[k] == if k in r then r[k] else cur[k]
      {
        assert Settled(first, v, k, cur[k], CurrentChange(cur[k], PriorOf(prior, k)));
        assert Fate(r, k, CurrentChange(cur[k], PriorOf(prior, k)));
      }
    }

    /** After both loops the old loader's events carry the values of `r`
        where the current loader lacks the key and `r` has it. */
    lemma PriorAfter(cur: map<Key, EventVal>, prior: map<Key, EventVal>, r: map<Key, EventVal>)
      requires class2 != null && GoneFates(cur, Some(prior), r) && cur.Keys == class1.events.Keys
      requires prior.Keys == class2.events.Keys
      requires forall k :: k in class2.events && k !in class1.events ==> Gone(events, k, prior[k], GoneChange(prior[k]))
      requires forall k :: k in class2.events && k in class1.events ==> class2.events[k].Val() == prior[k]
      ensures Snap(class2.events) == Overlay(prior, r, class2.events.Keys - class1.events.Keys)
    {
      forall k | k in class2.events
        ensures class2.events[k].Val() == if k !in class1.events && k in r then r[k] else prior[k]
      {
        if k !in class1.events {
          assert Gone(events, k, prior[k], GoneChange(prior[k]));
          assert Fate(r, k, GoneChange(prior[k]));
        }
      }
    }

    /** `cal_events`: the feed records of the changed events in key order,
        and their number. */
    method CalEvents() returns (order: seq<Key>, res: Result<CalOutput, Error>)
      ensures Ascending(order) && (forall k :: k in order <==> k in events) && |order| == |events|
      ensures res == CalSpec(order, Snap(events), venueAddrs)
    {
      order := SortKeys(events.Keys);
      res := CalWalk(order);
    }

    /** The loop of `cal_events`: the records of the events under `order`,
        one by one, stopping at the first that cannot be written. */
    method CalWalk(order: seq<Key>) returns (res: Result<CalOutput, Error>)
      requires forall k :: k in order ==> k in events
      ensures res == CalSpec(order, Snap(events), venueAddrs)
    {
      ghost var evs := Snap(events);
      var recs: seq<FeedEvent> := [];
      var nev := 0;
      PrependNone(Records(order, evs, venueAddrs));
      assert order[nev..] == order;
      while nev < |order|
        invariant 0 <= nev <= |order|
        invariant Records(order, evs, venueAddrs) == Prepend(recs, Records(order[nev..], evs, venueAddrs))
      {
        var k := order[nev];
        var r := FeedRecord(k, events[k].Val(), venueAddrs);
        RecordsStep(order, nev, evs, venueAddrs);
        if r.Failure? {
          CalStopped(order, evs, venueAddrs, recs, nev);
          return Failure(r.error);
        }
        PrependAssoc(recs, r.value, Records(order[nev + 1..], evs, venueAddrs));
        recs := recs + [r.value];
        nev := nev + 1;
      }
      CalFinished(order, evs, venueAddrs, recs);
      res := Success(CalOutput(nev, if nev > 0 then Some(recs) else None));
    }

    /** `csv_events`: the spreadsheet rows of the changed events in key
        order, absences skipped; an event without a uniform gets the
        placeholder, in the record itself. */
    method CsvEvents(utc: Instant -> Instant) returns (order: seq<Key>, res: Result<CsvOutput, Error>)
      requires Distinct(events)
      modifies events.Values
      ensures events == old(events)
      ensures Ascending(order) && (forall k :: k in order <==> k in events) && |order| == |events|
      ensures (res, Snap(events)) == CsvSpec(order, old(Snap(events)), CsvTable(), utc)
    {
      order := SortKeys(events.Keys);
      if |events| < 1 {
        return order, Success(CsvOutput(0, None));
      }
      ghost var evs := Snap(events);
      assert evs == old(Snap(events));
      var table := CsvTable();
      var row := RowsOf(table, utc);
      WalkStart(order, evs, row);
      var err, rows, cur := CsvRows(order, evs, row);
      res := if err.Some? then Failure(err.value) else Success(CsvOutput(|rows|, Some(rows)));
      CsvSpecOf(order, evs, table, utc, res, cur);
    }

    /** The loop of `csv_events`: the walk over `order`, row by row. */
    method CsvRows(order: seq<Key>, ghost evs: map<Key, EventVal>, row: RowMaker)
      returns (err: Option<Error>, rows: seq<CsvRow>, ghost cur: map<Key, EventVal>)
      requires Distinct(events) && Snap(events) == evs
      requires Walked(order, evs, row, [], 0, evs)
      modifies events.Values
      ensures events == old(events) && Snap(events) == cur && CsvTable() == old(CsvTable())
      ensures err.Some? ==> CsvEffect(order, evs, row) == (Failure(err.value), cur)
      ensures err.None? ==> CsvEffect(order, evs, row) == (Success(rows), cur)
    {
      rows, cur := [], evs;
      var i := 0;
      while i < |order|
        invariant 0 <= i <= |order|
        invariant events == old(events) && Snap(events) == cur && CsvTable() == old(CsvTable())
        invariant Walked(order, evs, row, rows, i, cur)
      {
        err, rows, cur := CsvNext(order, i, evs, row, rows, cur);
        if err.Some? {
          return;
        }
        i := i + 1;
      }
      err := None;
      WalkDone(order, evs, row, rows, cur);
    }

    /** One step of the loop of `csv_events`: the row of the event under
        `order[i]`, if it is not an absence, with the uniform placeholder
        written into the event. */
    method CsvNext(order: seq<Key>, i: nat, ghost evs: map<Key, EventVal>, row: RowMaker,
                   rows: seq<CsvRow>, ghost cur: map<Key, EventVal>)
      returns (err: Option<Error>, rows': seq<CsvRow>, ghost cur': map<Key, EventVal>)
      requires i < |order| && Distinct(events) && Snap(events) == cur
      requires Walked(order, evs, row, rows, i, cur)
      modifies events.Values
      ensures events == old(events) && Snap(events) == cur' && CsvTable() == old(CsvTable())
      ensures err.Some? ==> CsvEffect(order, evs, row) == (Failure(err.value), cur')
      ensures err.None? ==> Walked(order, evs, row, rows', i + 1, cur')
    {
      var k := order[i];
      var r := row(k, events[k].Val());
      WalkStep(order, evs, row, rows, i, cur);
      err, rows', cur' := None, rows, cur;
      if r.Failure? {
        err := Some(r.error);
      } else if r.value.Some? {
        FixUniform(k);
        cur' := cur[k := FixUni(cur[k])];
        rows' := rows + [r.value.value];
      }
    }

    /** `if not ev['uni']: ev['uni'] = "- none -"` on one changed event. */
    method FixUniform(k: Key)
      requires k in events && Distinct(events) && !events[k].uni.Missing?
      modifies events[k]
      ensures events == old(events) && CsvTable() == old(CsvTable())
      ensures Snap(events) == old(Snap(events))[k := FixUni(old(events[k].Val()))]
    {
      ghost var before := Snap(events);
      var ev := events[k];
      if ev.uni == Null || ev.uni == Text("") {
        ev.uni := Text("- none -");
      }
      OneWritten(events, k, before);
    }

    /** `output_events`: the feed for a ".ics" name, the spreadsheet for a
        ".csv" name, nothing otherwise or without a name. */
    method OutputEvents(ofn: Option<string>, utc: Instant -> Instant) returns (nev: Result<nat, Error>)
      requires Distinct(events)
      modifies events.Values
      ensures ofn.None? || (SplitExt(ofn.value) != ".ics" && SplitExt(ofn.value) != ".csv") ==>
        nev == Success(0) && Snap(events) == old(Snap(events))
      ensures ofn.Some? && SplitExt(ofn.value) == ".ics" ==>
        Snap(events) == old(Snap(events)) && (nev.Success? ==> nev.value == |events|)
      ensures ofn.Some? && SplitExt(ofn.value) == ".csv" ==>
        exists order :: Exported(order, events.Keys, old(Snap(events)), CsvTable(), utc, Snap(events), nev)
    {
      nev := Success(0);
      if ofn.None? {
        return;
      }
      var ext := SplitExt(ofn.value);
      TwoFormats();
      if ext == ".ics" {
        nev := OutputCal();
      } else if ext == ".csv" {
        nev := OutputCsv(utc);
      }
    }

    /** The ".ics" branch of `output_events`: the feed is written and the
        number of changed events reported, or the error. */
    method OutputCal() returns (nev: Result<nat, Error>)
      ensures nev.Success? ==> nev.value == |events|
    {
      var order, res := CalEvents();
      CalSpecProps(order, Snap(events), venueAddrs);
      nev := if res.Failure? then Failure(res.error) else Success(res.value.count);
    }

    /** The ".csv" branch of `output_events`. */
    method OutputCsv(utc: Instant -> Instant) returns (nev: Result<nat, Error>)
      requires Distinct(events)
      modifies events.Values
      ensures exists order :: Exported(order, events.Keys, old(Snap(events)), CsvTable(), utc, Snap(events), nev)
    {
      ghost var before := Snap(events);
      var order, res := CsvEvents(utc);
      InBefore(order, before);
      nev := if res.Failure? then Failure(res.error) else Success(res.value.count);
      assert Exported(order, events.Keys, before, CsvTable(), utc, Snap(events), nev);
    }
  }

  /** The two names of the formats differ. */
  lemma TwoFormats()
    ensures ".ics" != ".csv"
  {
    assert ".ics"[1] == 'i' && ".csv"[1] == 'c';
  }

  /** Keys drawn from a map's domain are in the map. */
  lemma InBefore(order: seq<Key>, before: map<Key, EventVal>)
    requires forall k :: k in order ==> k in before
    ensures forall i :: 0 <= i < |order| ==> order[i] in before
  {
  }

  /** A map of events whose values differ from `before` at most at `k`
      snapshots to `before` updated at `k`. */
  lemma OneWritten(m: map<Key, Event>, k: Key, before: map<Key, EventVal>)
    requires k in m && before.Keys == m.Keys
    requires forall k' :: k' in m && k' != k ==> m[k'].Val() == before[k']
    ensures Snap(m) == before[k := m[k].Val()]
  {
    var after := before[k := m[k].Val()];
    assert Snap(m).Keys == after.Keys;
    forall k' | k' in m
      ensures Snap(m)[k'] == after[k']
    {
    }
  }

  /** The spreadsheet export over the keys in ascending `order` turns the
      events `before` into `after` and reports `nev`: the number of rows, or
      the error that stopped it. */
  ghost predicate Exported(order: seq<Key>, keys: set<Key>, before: map<Key, EventVal>, table: Addresses,
                           utc: Instant -> Instant, after: map<Key, EventVal>, nev: Result<nat, Error>)
  {
    Ascending(order) && (forall k :: k in order <==> k in keys) && (forall i :: 0 <= i < |order| ==> order[i] in before)
    && var (r, out) := CsvSpec(order, before, table, utc);
       after == out && nev == (if r.Failure? then Failure(r.error) else Success(r.value.count))
  }

  /** Records already made, followed by those still to come. */
  function Prepend(recs: seq<FeedEvent>, rest: Result<seq<FeedEvent>, Error>): Result<seq<FeedEvent>, Error> {
    if rest.Failure? then rest else Success(recs + rest.value)
  }

  lemma PrependNone(rest: Result<seq<FeedEvent>, Error>)
    ensures Prepend([], rest) == rest
  {
    if rest.Success? {
      assert [] + rest.value == rest.value;
    }
  }

  lemma PrependAssoc(recs: seq<FeedEvent>, r: FeedEvent, rest: Result<seq<FeedEvent>, Error>)
    ensures Prepend(recs, Prepend([r], rest)) == Prepend(recs + [r], rest)
  {
    if rest.Success? {
      assert recs + ([r] + rest.value) == (recs + [r]) + rest.value;
    }
  }

  /** The walk over the records stops at the first record that cannot be
      written, and the feed fails with its error. */
  lemma CalStopped(order: seq<Key>, evs: map<Key, EventVal>, table: Addresses, recs: seq<FeedEvent>, i: nat)
    requires i < |order| && forall j :: 0 <= j < |order| ==> order[j] in evs
    requires Records(order, evs, table) == Prepend(recs, Records(order[i..], evs, table))
    requires FeedRecord(order[i], evs[order[i]], table).Failure?
    ensures CalSpec(order, evs, table) == Failure(FeedRecord(order[i], evs[order[i]], table).error)
  {
    RecordsStep(order, i, evs, table);
  }

  /** A walk over every record gives the feed of those records. */
  lemma CalFinished(order: seq<Key>, evs: map<Key, EventVal>, table: Addresses, recs: seq<FeedEvent>)
    requires forall j :: 0 <= j < |order| ==> order[j] in evs
    requires Records(order, evs, table) == Prepend(recs, Records(order[|order|..], evs, table))
    ensures CalSpec(order, evs, table) == Success(CalOutput(|order|, if |order| > 0 then Some(recs) else None))
  {
    assert order[|order|..] == [];
    assert recs + [] == recs;
  }

  /** One step of the walk over the records. */
  lemma RecordsStep(order: seq<Key>, i: nat, evs: map<Key, EventVal>, table: Addresses)
    requires i < |order| && forall j :: 0 <= j < |order| ==> order[j] in evs
    ensures var r := FeedRecord(order[i], evs[order[i]], table);
      Records(order[i..], evs, table)
        == if r.Failure? then Failure(r.error) else Prepend([r.value], Records(order[i + 1..], evs, table))
  {
    assert order[i..][0] == order[i] && order[i..][1..] == order[i + 1..];
  }

  /** Rows already written, followed by the walk still to come. */
  function Continue(rows: seq<CsvRow>, rest: (Result<seq<CsvRow>, Error>, map<Key, EventVal>))
    : (Result<seq<CsvRow>, Error>, map<Key, EventVal>)
  {
    (if rest.0.Failure? then rest.0 else Success(rows + rest.0.value), rest.1)
  }

  /** The loop of `csv_events` has walked `order[..i]`: the rows so far,
      followed by the walk over the rest from the events as they are now,
      make the whole walk. */
  ghost predicate Walked(order: seq<Key>, evs: map<Key, EventVal>, row: RowMaker,
                         rows: seq<CsvRow>, i: nat, cur: map<Key, EventVal>)
  {
    RowRule(row) && i <= |order| && (forall j :: 0 <= j < |order| ==> order[j] in evs) && cur.Keys == evs.Keys
    && CsvEffect(order, evs, row) == Continue(rows, CsvEffect(order[i..], cur, row))
  }

  lemma WalkStart(order: seq<Key>, evs: map<Key, EventVal>, row: RowMaker)
    requires forall j :: 0 <= j < |order| ==> order[j] in evs
    requires RowRule(row)
    ensures Walked(order, evs, row, [], 0, evs)
  {
    assert order[0..] == order;
    var rest := CsvEffect(order, evs, row);
    if rest.0.Success? {
      assert [] + rest.0.value == rest.0.value;
    }
  }

  /** The export's result, from the walk's. */
  lemma CsvSpecOf(order: seq<Key>, evs: map<Key, EventVal>, table: Addresses, utc: Instant -> Instant,
                  res: Result<CsvOutput, Error>, out: map<Key, EventVal>)
    requires order != [] && forall j :: 0 <= j < |order| ==> order[j] in evs
    requires res.Failure? ==> CsvEffect(order, evs, RowsOf(table, utc)) == (Failure(res.error), out)
    requires res.Success? ==>
      res.value.file.Some? && res.value.count == |res.value.file.value|
      && CsvEffect(order, evs, RowsOf(table, utc)) == (Success(res.value.file.value), out)
    ensures CsvSpec(order, evs, table, utc) == (res, out)
  {
  }

  /** A walk over every key yields the rows made and the events as they
      are. */
  lemma WalkDone(order: seq<Key>, evs: map<Key, EventVal>, row: RowMaker,
                 rows: seq<CsvRow>, cur: map<Key, EventVal>)
    requires Walked(order, evs, row, rows, |order|, cur)
    ensures CsvEffect(order, evs, row) == (Success(rows), cur)
  {
    assert order[|order|..] == [];
    assert rows + [] == rows;
  }

  /** One step of the walk: the record of the next key stops it, skips the
      key, or adds its row and rewrites its uniform. */
  lemma WalkStep(order: seq<Key>, evs: map<Key, EventVal>, row: RowMaker,
                 rows: seq<CsvRow>, i: nat, cur: map<Key, EventVal>)
    requires i < |order| && Walked(order, evs, row, rows, i, cur)
    ensures var k := order[i];
      var r := row(k, cur[k]);
      (r.Failure? ==> CsvEffect(order, evs, row) == (Failure(r.error), cur))
      && (r.Success? && r.value.None? ==> Walked(order, evs, row, rows, i + 1, cur))
      && (r.Success? && r.value.Some? ==>
            !cur[k].uni.Missing? && Walked(order, evs, row, rows + [r.value.value], i + 1, cur[k := FixUni(cur[k])]))
  {
    var k := order[i];
    assert order[i..][0] == k && order[i..][1..] == order[i + 1..];
    var r := row(k, cur[k]);
    if r.Success? && r.value.Some? {
      var rest := CsvEffect(order[i + 1..], cur[k := FixUni(cur[k])], row);
      if rest.0.Success? {
        assert rows + ([r.value.value] + rest.0.value) == (rows + [r.value.value]) + rest.0.value;
      }
    }
  }
}
