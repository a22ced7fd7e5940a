/** The event records both loaders build and the reconciliation engine
    compares. A loader stores each event as a dictionary under the key
    `(start, end)`; the engine later writes a `status` into those very
    dictionaries, and the spreadsheet export rewrites `uni` in them, so an
    event is an object here, with a value snapshot `EventVal`. */
module Events {
  import opened Util
  import opened Calendar

  /** The identity of an event: its start and its end. */
  type Key = (Instant, Instant)

  /** A dictionary entry that may be missing, hold `None`, or hold a string. */
  datatype Slot = Missing | Null | Text(s: string)

  /** A dictionary entry set from a cell that may be empty. */
  function Cell(c: Option<string>): (r: Slot)
    ensures r != Missing && (r.Text? <==> c.Some?) && (c.Some? ==> r.s == c.value)
  {
    if c.Some? then Text(c.value) else Null
  }

  /** The `status` entry: absent, `'CANCELLED'` or `'MODIFIED'`. */
  datatype Status = Unset | Cancelled | Modified

  /** A calendar-feed time: a date (an all-day event) or a date-time. */
  datatype FeedTime = AllDay(date: Day) | At(dt: Instant)

  /** What an event dictionary holds. Every loader sets `title`, `venue`
      and `type`. `venue` is always present, so its `None` here is Python's
      `None`, read from an empty spreadsheet cell. `type` can hold `None`
      the same way. `uni` is missing for absences. `uid` and `addr` come
      only from calendar feeds and are never `None` when present, so their
      `None` here means the entry is absent. */
  datatype EventVal = EventVal(
    title: string,
    venue: Option<string>,
    uni: Slot,
    etype: Slot,
    uid: Option<string>,
    addr: Option<string>,
    status: Status)

  class Event {
    var title: string
    var venue: Option<string>
    var uni: Slot
    var etype: Slot
    var uid: Option<string>
    var addr: Option<string>
    var status: Status
    /** The loader that made this record; every loader keeps only its own. */
    ghost const owner: object

    function Val(): EventVal
      reads this
    {
      EventVal(title, venue, uni, etype, uid, addr, status)
    }

    constructor (v: EventVal, ghost owner: object)
      ensures Val() == v && this.owner == owner
    {
      this.owner := owner;
      title, venue, uni, etype := v.title, v.venue, v.uni, v.etype;
      uid, addr, status := v.uid, v.addr, v.status;
    }
  }

  /** The values of a collection of event objects. */
  function Snap(m: map<Key, Event>): (r: map<Key, EventVal>)
    reads m.Values
    ensures r.Keys == m.Keys
    ensures forall k :: k in m ==> r[k] == m[k].Val()
  {
    map k | k in m :: m[k].Val()
  }

  /** The snapshot of a collection is that of the others plus the one. */
  lemma SnapSplit(m: map<Key, Event>, k: Key)
    requires k in m
    ensures Snap(m) == Snap(m - {k})[k := m[k].Val()]
  {
  }

  /** No event object is stored under two keys. */
  ghost predicate Distinct(m: map<Key, Event>) {
    forall k1, k2 :: k1 in m && k2 in m && k1 != k2 ==> m[k1] != m[k2]
  }

  // ---------------------------------------------------------------------
  // key order, as Python compares `(start, end)` tuples

  predicate KeyLess(a: Key, b: Key) {
    Before(a.0, b.0) || (a.0 == b.0 && Before(a.1, b.1))
  }

  lemma KeyLessIsStrictTotal(a: Key, b: Key, c: Key)
    ensures !KeyLess(a, a)
    ensures KeyLess(a, b) && KeyLess(b, c) ==> KeyLess(a, c)
    ensures a == b || KeyLess(a, b) || KeyLess(b, a)
  {
    BeforeIsStrictTotal(a.0, b.0, c.0);
    BeforeIsStrictTotal(a.1, b.1, c.1);
  }

  /** Strictly ascending keys: each is less than every key after it. */
  predicate Ascending(s: seq<Key>)
    decreases |s|
  {
    |s| <= 1 || ((forall j :: 1 <= j < |s| ==> KeyLess(s[0], s[j])) && Ascending(s[1..]))
  }

  /** In an ascending sequence every key is less than every later one;
      in particular no key occurs twice. */
  lemma {:induction false} AscendingPairs(s: seq<Key>)
    requires Ascending(s)
    ensures forall i, j :: 0 <= i < j < |s| ==> KeyLess(s[i], s[j]) && s[i] != s[j]
    decreases |s|
  {
    if |s| > 1 {
      AscendingPairs(s[1..]);
      forall i, j | 0 <= i < j < |s|
        ensures KeyLess(s[i], s[j]) && s[i] != s[j]
      {
        if i > 0 {
          assert s[i] == s[1..][i - 1] && s[j] == s[1..][j - 1];
        }
        KeyLessIsStrictTotal(s[i], s[j], s[j]);
      }
    }
  }

  /** Puts a new key into its place in an ascending sequence. */
  function Insert(s: seq<Key>, k: Key): (r: seq<Key>)
    requires Ascending(s) && k !in s
    ensures Ascending(r) && |r| == |s| + 1
    ensures forall x :: x in r <==> x in s || x == k
    decreases |s|
  {
    if s == [] then [k]
    else if KeyLess(k, s[0]) then
      var r := [k] + s;
      assert forall j :: 1 <= j < |r| ==> KeyLess(k, r[j]) by {
        forall j | 1 <= j < |r| ensures KeyLess(k, r[j]) {
          if j > 1 {
            KeyLessIsStrictTotal(k, s[0], s[j - 1]);
          }
        }
      }
      assert r[1..] == s;
      r
    else
      KeyLessIsStrictTotal(s[0], k, s[0]);
      var tail := Insert(s[1..], k);
      var r := [s[0]] + tail;
      assert forall j :: 1 <= j < |r| ==> KeyLess(s[0], r[j]) by {
        forall j | 1 <= j < |r| ensures KeyLess(s[0], r[j]) {
          var x := r[j];
          assert x in tail;
          if x != k {
            var i :| 0 <= i < |s[1..]| && s[1..][i] == x;
            assert s[i + 1] == x;
          }
        }
      }
      assert r[1..] == tail;
      r
  }

  /** `sorted(keys)`: the keys in ascending order, each exactly once. */
  method SortKeys(keys: set<Key>) returns (s: seq<Key>)
    ensures Ascending(s)
    ensures forall k :: k in s <==> k in keys
    ensures |s| == |keys|
    ensures forall i, j :: 0 <= i < j < |s| ==> s[i] != s[j]
  {
    s := [];
    var rest := keys;
    while rest != {}
      invariant rest <= keys
      invariant Ascending(s)
      invariant forall k :: k in s <==> k in keys && k !in rest
      invariant |s| + |rest| == |keys|
      decreases |rest|
    {
      var k :| k in rest;
      s := Insert(s, k);
      rest := rest - {k};
    }
    AscendingPairs(s);
  }
}
