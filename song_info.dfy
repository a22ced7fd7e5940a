/** `makeSongInfo.py`: the blank schedule workbook for one year. A
    rehearsals sheet holds a row for every Tuesday of the year; a
    performances sheet holds placeholder rows for the first and the third
    Thursday of each month. Both sheets start with the same header row. */
module SongInfo {
  import opened Util
  import opened Calendar

  /** `date.max.year`: a `date` in a later year cannot be built. */
  const MaxYear := 9999

  /** A worksheet cell: a string, a date, a time of day or empty (`None`). */
  datatype Cell = Text(s: string) | DateCell(d: Date) | TimeCell(h: int, m: int, sec: int) | Blank

  /** A worksheet: its title and the rows appended to it so far. */
  class Sheet {
    var title: string
    var rows: seq<seq<Cell>>

    constructor (t: string)
      ensures title == t && rows == []
    {
      title, rows := t, [];
    }

    /** `ws.append(row)` */
    method Append(row: seq<Cell>)
      modifies this
      ensures title == old(title) && rows == old(rows) + [row]
    {
      rows := rows + [row];
    }
  }

  /** The header row of both sheets. */
  const Header: seq<Cell> :=
    [Text("Event"), Text("Venue"), Text("Date"), Text("Start Time"), Text("End Time"), Text("Uniform"), Text("Type")]

  function RehearsalRow(d: Date): seq<Cell> {
    [Text("Tuners Rehearsal"), Text("Lewis & Clark Evt Ctr"), DateCell(d),
     TimeCell(18, 0, 0), TimeCell(20, 0, 0), Blank, Text("Rehearsal")]
  }

  function PerformanceRow(d: Date): seq<Cell> {
    [Text("at venue"), Text("venue"), DateCell(d),
     TimeCell(18, 30, 0), TimeCell(19, 15, 0), Text("singout"), Text("Performance")]
  }

  // ---------------------------------------------------------------------
  // weekday arithmetic

  /** `tuedom`: the day of the month of the first Tuesday, for a month whose
      first day has weekday `dow` (0 is Monday, 1 Tuesday). */
  function TueDom(dow: int): (t: int)
    requires 0 <= dow < 7
    ensures 1 <= t <= 7 && (dow + t - 1) % 7 == 1
  {
    if dow < 2 then 2 - dow else 9 - dow
  }

  /** `thudom`: the day of the month of the first Thursday (weekday 3). */
  function ThuDom(dow: int): (t: int)
    requires 0 <= dow < 7
    ensures 1 <= t <= 7 && (dow + t - 1) % 7 == 3
  {
    if dow < 4 then 4 - dow else 11 - dow
  }

  /** Within the first week, the weekday `target` falls on one day only. */
  lemma Before7(w: int, d: int, target: int)
    requires 0 <= w < 7 && 1 <= d && 0 <= target < 7
    requires d < (if w <= target then target - w + 1 else target - w + 8)
    ensures (w + d - 1) % 7 != target
  {
    if w + d - 1 >= 7 {
      assert (w + d - 1) % 7 == w + d - 8;
    }
  }

  /** The first Tuesday of a year is January `tuedom`: a Tuesday, and no
      day of January before it is one. */
  lemma FirstTuesday(yr: int)
    requires yr >= 1
    ensures var t := TueDom(Weekday(Date(yr, 1, 1)));
      Weekday(Date(yr, 1, t)) == 1 && forall d :: 1 <= d < t ==> Weekday(Date(yr, 1, d)) != 1
  {
    var w := Weekday(Date(yr, 1, 1));
    var t := TueDom(w);
    WeekdayInMonth(yr, 1, t);
    forall d | 1 <= d < t
      ensures Weekday(Date(yr, 1, d)) != 1
    {
      WeekdayInMonth(yr, 1, d);
      Before7(w, d, 1);
    }
  }

  /** `thudom` of a month is its first Thursday, and fourteen days later is
      its third Thursday, still in that month. */
  lemma FirstAndThirdThursday(yr: int, mo: int)
    requires yr >= 1 && 1 <= mo <= 12
    ensures var t := ThuDom(Weekday(Date(yr, mo, 1)));
      Weekday(Date(yr, mo, t)) == 3 && (forall d :: 1 <= d < t ==> Weekday(Date(yr, mo, d)) != 3)
      && AddDays(Date(yr, mo, t), 14) == Date(yr, mo, t + 14)
      && Weekday(Date(yr, mo, t + 14)) == 3 && 15 <= t + 14 <= 21
  {
    FirstThursday(yr, mo);
    ThirdThursday(yr, mo);
  }

  lemma FirstThursday(yr: int, mo: int)
    requires yr >= 1 && 1 <= mo <= 12
    ensures var t := ThuDom(Weekday(Date(yr, mo, 1)));
      Weekday(Date(yr, mo, t)) == 3 && forall d :: 1 <= d < t ==> Weekday(Date(yr, mo, d)) != 3
  {
    var w := Weekday(Date(yr, mo, 1));
    var t := ThuDom(w);
    WeekdayInMonth(yr, mo, t);
    forall d | 1 <= d < t
      ensures Weekday(Date(yr, mo, d)) != 3
    {
      WeekdayInMonth(yr, mo, d);
      Before7(w, d, 3);
    }
  }

  lemma ThirdThursday(yr: int, mo: int)
    requires yr >= 1 && 1 <= mo <= 12
    ensures var t := ThuDom(Weekday(Date(yr, mo, 1)));
      AddDays(Date(yr, mo, t), 14) == Date(yr, mo, t + 14)
      && Weekday(Date(yr, mo, t + 14)) == 3 && 15 <= t + 14 <= 21
  {
    var w := Weekday(Date(yr, mo, 1));
    var t := ThuDom(w);
    WeekdayInMonth(yr, mo, t + 14);
    TwoWeeks(w + t - 1);
    assert Weekday(Date(yr, mo, t + 14)) == (w + t - 1) % 7;
    AddDaysInMonth(Date(yr, mo, t), 14);
  }

  lemma TwoWeeks(x: int)
    ensures (x + 14) % 7 == x % 7
  {
  }

  // ---------------------------------------------------------------------
  // the Tuesdays

  /** The loop that collects every Tuesday from the first one until the
      next year begins. */
  method Tuesdays(yr: int) returns (ts: seq<Date>)
    requires 1 <= yr < MaxYear
    ensures |ts| > 0 && ts[0] == Date(yr, 1, TueDom(Weekday(Date(yr, 1, 1))))
    ensures forall i :: 0 <= i < |ts| ==> ValidDate(ts[i]) && ts[i].year == yr && Weekday(ts[i]) == 1
    ensures forall i :: 0 < i < |ts| ==> Ordinal(ts[i]) == Ordinal(ts[i - 1]) + 7
    ensures forall d: Date :: ValidDate(d) && d.year == yr && Weekday(d) == 1 ==> d in ts
  {
    var jan1 := Date(yr, 1, 1);
    var tue := Date(yr, 1, TueDom(Weekday(jan1)));
    var nxtjan1 := Date(yr + 1, 1, 1);
    ghost var first := tue;
    ts := [];
    OrdinalOrder(tue, nxtjan1);
    while DateBefore(tue, nxtjan1)
      invariant ValidDate(tue) && Ordinal(tue) == Ordinal(first) + 7 * |ts|
      invariant forall i :: 0 <= i < |ts| ==> ValidDate(ts[i]) && Ordinal(ts[i]) == Ordinal(first) + 7 * i
      invariant forall i :: 0 <= i < |ts| ==> DateBefore(ts[i], nxtjan1)
      invariant |ts| > 0 ==> ts[0] == first
      invariant |ts| == 0 ==> tue == first
      decreases Ordinal(nxtjan1) - Ordinal(tue)
    {
      OrdinalOrder(tue, nxtjan1);
      TuesdayStep(ts, tue, first, nxtjan1);
      ts := ts + [tue];
      tue := AddDays(tue, 7);
    }
    OrdinalOrder(tue, nxtjan1);
    TuesdaysDone(yr, ts, first, Ordinal(tue));
  }

  /** One turn of the loop keeps its invariants. */
  lemma TuesdayStep(ts: seq<Date>, tue: Date, first: Date, nxt: Date)
    requires ValidDate(first) && ValidDate(tue) && Ordinal(tue) == Ordinal(first) + 7 * |ts| && DateBefore(tue, nxt)
    requires forall i :: 0 <= i < |ts| ==> ValidDate(ts[i]) && Ordinal(ts[i]) == Ordinal(first) + 7 * i
    requires forall i :: 0 <= i < |ts| ==> DateBefore(ts[i], nxt)
    requires |ts| > 0 ==> ts[0] == first
    requires |ts| == 0 ==> tue == first
    ensures var ts', tue' := ts + [tue], AddDays(tue, 7);
      ValidDate(tue') && Ordinal(tue') == Ordinal(first) + 7 * |ts'|
      && (forall i :: 0 <= i < |ts'| ==> ValidDate(ts'[i]) && Ordinal(ts'[i]) == Ordinal(first) + 7 * i)
      && (forall i :: 0 <= i < |ts'| ==> DateBefore(ts'[i], nxt))
      && ts'[0] == first
  {
    Appended(ts, tue, d => ValidDate(d) && Ordinal(d) == Ordinal(first) + 7 * |ts|,
             (i, d) => ValidDate(d) && Ordinal(d) == Ordinal(first) + 7 * i);
    Appended(ts, tue, d => DateBefore(d, nxt), (i, d) => DateBefore(d, nxt));
  }

  /** A property of every element and of the appended one holds of every
      element of the longer sequence. */
  lemma Appended(ts: seq<Date>, x: Date, last: Date -> bool, each: (int, Date) -> bool)
    requires last(x) && forall i :: 0 <= i < |ts| ==> each(i, ts[i])
    requires forall d :: last(d) ==> each(|ts|, d)
    ensures forall i :: 0 <= i < |ts| + 1 ==> each(i, (ts + [x])[i])
  {
  }

  /** What the loop's invariants give once the next year is reached. */
  lemma TuesdaysDone(yr: int, ts: seq<Date>, first: Date, last: int)
    requires 1 <= yr < MaxYear
    requires first == Date(yr, 1, TueDom(Weekday(Date(yr, 1, 1))))
    requires forall i :: 0 <= i < |ts| ==> ValidDate(ts[i]) && Ordinal(ts[i]) == Ordinal(first) + 7 * i
    requires forall i :: 0 <= i < |ts| ==> DateBefore(ts[i], Date(yr + 1, 1, 1))
    requires |ts| > 0 ==> ts[0] == first
    requires last == Ordinal(first) + 7 * |ts| && last >= Ordinal(Date(yr + 1, 1, 1))
    ensures |ts| > 0 && ts[0] == first
    ensures forall i :: 0 <= i < |ts| ==> ValidDate(ts[i]) && ts[i].year == yr && Weekday(ts[i]) == 1
    ensures forall i :: 0 < i < |ts| ==> Ordinal(ts[i]) == Ordinal(ts[i - 1]) + 7
    ensures forall d: Date :: ValidDate(d) && d.year == yr && Weekday(d) == 1 ==> d in ts
  {
    assert |ts| > 0;
    forall i | 0 <= i < |ts|
      ensures ts[i].year == yr && Weekday(ts[i]) == 1
    {
      FirstTuesday(yr);
      OrdinalOrder(ts[i], first);
      AddWeeks(Ordinal(first) + 6, i);
    }
    forall d: Date | ValidDate(d) && d.year == yr && Weekday(d) == 1
      ensures d in ts
    {
      TuesdayInYear(yr, d);
      var j := SameResidue(Ordinal(d) + 6, Ordinal(first) + 6);
      assert j < |ts|;
      OrdinalOrder(ts[j], d);
    }
  }

  /** A Tuesday of the year lies between its first Tuesday and the next
      year, with the first Tuesday's weekday. */
  lemma TuesdayInYear(yr: int, d: Date)
    requires 1 <= yr && ValidDate(d) && d.year == yr && Weekday(d) == 1
    ensures var first := Date(yr, 1, TueDom(Weekday(Date(yr, 1, 1))));
      Ordinal(first) <= Ordinal(d) < Ordinal(Date(yr + 1, 1, 1)) && Weekday(first) == 1
  {
    var first := Date(yr, 1, TueDom(Weekday(Date(yr, 1, 1))));
    FirstTuesday(yr);
    OrdinalInYear(d);
    assert DaysBeforeYear(yr + 1) == DaysBeforeYear(yr) + DaysInYear(yr);
    if Ordinal(d) < Ordinal(first) {
      if d.month > 1 {
        MonthsOrdered(yr, 1, d.month);
      }
      assert false;
    }
  }

  /** Whole weeks do not move the weekday. */
  lemma {:induction false} AddWeeks(a: int, i: nat)
    ensures (a + 7 * i) % 7 == a % 7
    decreases i
  {
    if i > 0 {
      AddWeeks(a, i - 1);
      assert a + 7 * i == (a + 7 * (i - 1)) + 7;
    }
  }

  /** Days with the same weekday lie whole weeks apart. */
  lemma SameResidue(a: int, b: int) returns (j: int)
    requires a % 7 == b % 7 && a >= b
    ensures a == b + 7 * j && j >= 0
  {
    j := a / 7 - b / 7;
    assert a == 7 * (a / 7) + a % 7;
    assert b == 7 * (b / 7) + b % 7;
  }

  // ---------------------------------------------------------------------
  // the performance dates

  /** The date of a performance row of month `mo`: its first Thursday,
      or the Thursday two weeks later. */
  function PerfDay(yr: int, mo: int, third: bool): Date
    requires yr >= 1 && 1 <= mo <= 12
  {
    Date(yr, mo, ThuDom(Weekday(Date(yr, mo, 1))) + if third then 14 else 0)
  }

  /** Each month's performance dates are its first and its third
      Thursday. */
  lemma PerfDays(yr: int, mo: int)
    requires yr >= 1 && 1 <= mo <= 12
    ensures var d, e := PerfDay(yr, mo, false), PerfDay(yr, mo, true);
      ValidDate(d) && ValidDate(e) && Weekday(d) == 3 && Weekday(e) == 3
      && d.day <= 7 && (forall x :: 1 <= x < d.day ==> Weekday(Date(yr, mo, x)) != 3)
      && 15 <= e.day <= 21 && e == AddDays(d, 14)
  {
    FirstAndThirdThursday(yr, mo);
  }

  /** The performance dates come in date order: a month's first Thursday
      before its third, and both before any date of a later month. */
  lemma PerfDaysAscending(yr: int, m: int, n: int, a: bool, b: bool)
    requires yr >= 1 && 1 <= m <= n <= 12 && (m < n || (!a && b))
    ensures DateBefore(PerfDay(yr, m, a), PerfDay(yr, n, b))
  {
  }

  // ---------------------------------------------------------------------
  // the workbook

  /** The rehearsals sheet: the header, then one row per Tuesday. */
  method RehearsalSheet(yr: int, tuesdays: seq<Date>) returns (reh: Sheet)
    ensures fresh(reh)
    ensures reh.title == IntToString(yr) + " Rehearsals"
    ensures |reh.rows| == |tuesdays| + 1 && reh.rows[0] == Header
    ensures forall i :: 0 <= i < |tuesdays| ==> reh.rows[i + 1] == RehearsalRow(tuesdays[i])
  {
    reh := new Sheet(IntToString(yr) + " Rehearsals");
    reh.Append(Header);
    for i := 0 to |tuesdays|
      invariant reh.title == IntToString(yr) + " Rehearsals"
      invariant |reh.rows| == i + 1 && reh.rows[0] == Header
      invariant forall j :: 0 <= j < i ==> reh.rows[j + 1] == RehearsalRow(tuesdays[j])
    {
      reh.Append(RehearsalRow(tuesdays[i]));
    }
  }

  /** The performances sheet: the header, then for each month in order a
      row for its first Thursday and a row for the Thursday two weeks
      later. */
  method PerformanceSheet(yr: int) returns (perf: Sheet)
    requires 1 <= yr < MaxYear
    ensures fresh(perf)
    ensures perf.title == IntToString(yr) + " Performances"
    ensures |perf.rows| == 25 && perf.rows[0] == Header
    ensures forall m :: 1 <= m <= 12 ==>
      perf.rows[2 * m - 1] == PerformanceRow(PerfDay(yr, m, false))
      && perf.rows[2 * m] == PerformanceRow(PerfDay(yr, m, true))
  {
    perf := new Sheet(IntToString(yr) + " Performances");
    perf.Append(Header);
    for mo := 1 to 13
      invariant perf.title == IntToString(yr) + " Performances"
      invariant |perf.rows| == 2 * (mo - 1) + 1 && perf.rows[0] == Header
      invariant forall m :: 1 <= m < mo ==>
        perf.rows[2 * m - 1] == PerformanceRow(PerfDay(yr, m, false))
        && perf.rows[2 * m] == PerformanceRow(PerfDay(yr, m, true))
    {
      var mo1 := Date(yr, mo, 1);
      var dow := Weekday(mo1);
      var thudom := ThuDom(dow);
      var thu := Date(yr, mo, thudom);
      ghost var before := perf.rows;
      perf.Append(PerformanceRow(thu));
      AddDaysInMonth(thu, 14);
      thu := AddDays(thu, 14);
      perf.Append(PerformanceRow(thu));
      assert perf.rows == before + [PerformanceRow(PerfDay(yr, mo, false)), PerformanceRow(PerfDay(yr, mo, true))];
      forall m | 1 <= m <= mo
        ensures perf.rows[2 * m - 1] == PerformanceRow(PerfDay(yr, m, false))
        ensures perf.rows[2 * m] == PerformanceRow(PerfDay(yr, m, true))
      {
        if m < mo {
          assert perf.rows[2 * m - 1] == before[2 * m - 1] && perf.rows[2 * m] == before[2 * m];
        }
      }
    }
  }

  /** The script: the Tuesdays of `yr`, the rehearsals sheet and the
      performances sheet. */
  method MakeSongInfo(yr: int) returns (tuesdays: seq<Date>, reh: Sheet, perf: Sheet)
    requires 1 <= yr < MaxYear
    ensures fresh(reh) && fresh(perf) && reh != perf
    ensures reh.title == IntToString(yr) + " Rehearsals" && perf.title == IntToString(yr) + " Performances"
    ensures |reh.rows| == |tuesdays| + 1 && reh.rows[0] == Header
    ensures forall i :: 0 <= i < |tuesdays| ==> reh.rows[i + 1] == RehearsalRow(tuesdays[i])
    ensures forall i :: 0 <= i < |tuesdays| ==> ValidDate(tuesdays[i]) && tuesdays[i].year == yr && Weekday(tuesdays[i]) == 1
    ensures forall i :: 0 < i < |tuesdays| ==> Ordinal(tuesdays[i]) == Ordinal(tuesdays[i - 1]) + 7
    ensures forall d: Date :: ValidDate(d) && d.year == yr && Weekday(d) == 1 ==> d in tuesdays
    ensures |perf.rows| == 25 && perf.rows[0] == Header
    ensures forall m :: 1 <= m <= 12 ==>
      perf.rows[2 * m - 1] == PerformanceRow(PerfDay(yr, m, false))
      && perf.rows[2 * m] == PerformanceRow(PerfDay(yr, m, true))
  {
    tuesdays := Tuesdays(yr);
    reh := RehearsalSheet(yr, tuesdays);
    perf := PerformanceSheet(yr);
  }

  /** The year the script fills: its first argument, or today's year;
      `None` is the ValueError of a first argument that is not a number. */
  function ChooseYear(argv: seq<string>, today: Day): Option<int> {
    if |argv| > 1 then ParseInt(argv[1]) else Some(today.year)
  }
}
