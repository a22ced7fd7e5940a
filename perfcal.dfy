/** The command line of `perfcal.py`: the options given in order build the
    run's settings (which sources, which months, which event types, which
    outputs), and the settings then fix the date window, the loaders that
    fill the two comparison slots and the name of the changed-events file.
    The clock is the parameter `now`; the options arrive as getopt hands
    them over. */
module Perfcal {
  import opened Util
  import opened Calendar
  import TunerEvents

  // ---------------------------------------------------------------------
  // last_day_of_month

  /** Four days after the 28th of a month is the (32 - length)th of the
      month after it. */
  lemma FourAfter28(y: int, m: int)
    requires y >= 1 && 1 <= m <= 12
    ensures AddDays(Date(y, m, 28), 4)
            == if m < 12 then Date(y, m + 1, 32 - DaysInMonth(y, m)) else Date(y + 1, 1, 1)
  {
    var c := if m < 12 then Date(y, m + 1, 32 - DaysInMonth(y, m)) else Date(y + 1, 1, 1);
    if m < 12 {
      MonthStep(y, m);
    } else {
      YearEnd(y);
    }
    OrdinalOrder(AddDays(Date(y, m, 28), 4), c);
  }

  /** Going back from that day by its day number lands on the month's last
      day. */
  lemma BackToLast(y: int, m: int)
    requires y >= 1 && 1 <= m <= 12
    ensures var nm := AddDays(Date(y, m, 28), 4);
      Ordinal(nm) > nm.day && SubDays(nm, nm.day) == Date(y, m, DaysInMonth(y, m))
  {
    FourAfter28(y, m);
    var nm := AddDays(Date(y, m, 28), 4);
    if m < 12 {
      MonthStep(y, m);
    } else {
      YearEnd(y);
    }
    OrdinalOrder(SubDays(nm, nm.day), Date(y, m, DaysInMonth(y, m)));
  }

  /** `last_day_of_month(d)`: the 28th plus four days is in the next month;
      going back by that day's number gives the last day of `d`'s month. */
  function LastDayOfMonth(d: Day): (r: Day)
    ensures r.year == d.year && r.month == d.month && r.day == DaysInMonth(d.year, d.month)
  {
    BackToLast(d.year, d.month);
    var nm := AddDays(Date(d.year, d.month, 28), 4);
    SubDays(nm, nm.day)
  }

  /** The day after the last day of a month is the first of the next. */
  lemma LastDayIsLast(d: Day)
    ensures NextDay(LastDayOfMonth(d))
            == if d.month < 12 then Date(d.year, d.month + 1, 1) else Date(d.year + 1, 1, 1)
  {
  }

  // ---------------------------------------------------------------------
  // settings

  /** An option as getopt hands it over: the letter of its name (`c` for
      "-c") and its argument ("" for the options that take none). */
  datatype Opt = Opt(letter: char, arg: string)

  /** `startmo`/`endmo`: the integers 1 and 12 until `-m` replaces them with
      the strings of its argument. */
  datatype Month = Num(n: int) | Str(s: string)

  /** The variables `main` keeps while it reads the options; `excel`, `ics`
      and `calnames` are the module-level `infiles` and `calnames`. `cur`
      and `prev` (`old` in `main`) hold one-letter strings. */
  datatype Settings = Settings(
    cur: Option<string>,
    prev: Option<string>,
    startmo: Month,
    endmo: Month,
    y1: int,
    m1: int,
    y2: int,
    m2: int,
    dotypes: TunerEvents.Flags,
    dolist: bool,
    pdffn: string,
    excel: string,
    ics: string,
    calnames: seq<string>)

  /** How a run can end early: `usage(...)` exits with a code; `-m` raises
      `UserWarning` for a bad range and `int()` raises `ValueError` for a
      part that is not a number; an option getopt let through but `main`
      does not handle trips an assertion. */
  datatype Stop = Exit(code: int) | UserWarning | ValueError | AssertionError

  const ValidCur: seq<string> := ["e", "i"]
  const ValidOld: seq<string> := ["e", "i", "c", "v"]

  /** The settings before any option: the spreadsheet is compared with the
      feed, from the current month to December of the current year, all
      four event types, no listing and no PDF. */
  function Defaults(now: Day): Settings {
    Settings(Some("e"), Some("i"), Num(1), Num(12), now.year, now.month, now.year, 12,
             TunerEvents.Flags(true, true, true, true), false, "",
             "SingoutInfo.xlsx", "tuners2023.ics", [])
  }

  /** What every reachable setting satisfies: a current source, an old
      side that is absent or one of the four letters, and months and years
      a date can have. */
  ghost predicate Sane(s: Settings) {
    s.cur.Some? && s.cur.value in ValidCur
    && (s.prev.Some? ==> s.prev.value in ValidOld)
    && 1 <= s.m1 <= 12 && 1 <= s.m2 <= 12 && s.y1 >= 1 && s.y2 >= 1
  }

  /** `-c xy`: the comparison order. One letter names the current source and
      leaves no old side; two letters name both; any other length changes
      nothing. */
  function CompOrder(a: string, s: Settings): (r: Result<Settings, Stop>)
    ensures Sane(s) && r.Success? ==> Sane(r.value)
  {
    if StartsWith(a, "-") then Failure(Exit(1))
    else if |a| == 1 then
      if a in ValidCur then Success(s.(cur := Some(a), prev := None)) else Failure(Exit(1))
    else if |a| == 2 then
      if [a[0]] in ValidCur && [a[1]] in ValidOld then Success(s.(cur := Some([a[0]]), prev := Some([a[1]])))
      else Failure(Exit(1))
    else Success(s)
  }

  /** The start of a `-m` range: a month of the start year, a whole year,
      or `yyyy:m`. */
  function StartPart(p: string, s: Settings): (r: Result<Settings, Stop>)
    ensures Sane(s) && r.Success? ==> Sane(r.value)
  {
    var ym := Split(p, ':');
    if |ym| > 2 then Failure(UserWarning)
    else if |ym| == 1 then
      match ParseInt(ym[0])
      case None => Failure(ValueError)
      case Some(t) =>
        if 0 < t < 13 then Success(s.(m1 := t))
        else if 2009 < t < 2100 then Success(s.(m1 := 1, m2 := 12, y1 := t))
        else Failure(UserWarning)
    else
      match (ParseInt(ym[0]), ParseInt(ym[1]))
      case (Some(y), Some(m)) =>
        if m < 1 || m > 12 || y < 2010 || y > 2099 then Failure(UserWarning)
        else Success(s.(y1 := y, m1 := m))
      case _ => Failure(ValueError)
  }

  /** The end of a `-m` range: a month of the start year, a whole year
      (which also moves the start month back to January), or `yyyy:m`. */
  function EndPart(p: string, s: Settings): (r: Result<Settings, Stop>)
    ensures Sane(s) && r.Success? ==> Sane(r.value)
  {
    var ym := Split(p, ':');
    if |ym| > 2 then Failure(UserWarning)
    else if |ym| == 1 then
      match ParseInt(ym[0])
      case None => Failure(ValueError)
      case Some(t) =>
        if 0 < t < 13 then Success(s.(m2 := t, y2 := s.y1))
        else if 2009 < t < 2100 then Success(s.(m1 := 1, m2 := 12, y2 := t))
        else Failure(UserWarning)
    else
      match (ParseInt(ym[0]), ParseInt(ym[1]))
      case (Some(y), Some(m)) =>
        if m < 1 || m > 12 || y < 2010 || y > 2099 then Failure(UserWarning)
        else Success(s.(y2 := y, m2 := m))
      case _ => Failure(ValueError)
  }

  /** `-m range`: `start` or `start-end`; a lone start is also the end. */
  function MonthRange(a: string, s: Settings): (r: Result<Settings, Stop>)
    ensures Sane(s) && r.Success? ==> Sane(r.value)
  {
    if StartsWith(a, "-") then Failure(Exit(1))
    else
      var mos := Split(a, '-');
      if |mos| > 2 then Failure(UserWarning)
      else
        var st := mos[0];
        var en := if |mos| > 1 then mos[1] else st;
        match StartPart(st, s.(startmo := Str(st), endmo := Str(en)))
        case Failure(e) => Failure(e)
        case Success(s') => EndPart(en, s')
  }

  /** One option of the loop in `main`. */
  function ApplyOpt(o: Opt, s: Settings): (r: Result<Settings, Stop>)
    ensures Sane(s) && r.Success? ==> Sane(r.value)
    ensures o.letter != 'm' && r.Success? ==>
      r.value.startmo == s.startmo && r.value.endmo == s.endmo
      && r.value.y1 == s.y1 && r.value.m1 == s.m1 && r.value.y2 == s.y2 && r.value.m2 == s.m2
  {
    var a := o.arg;
    if o.letter == 'c' then CompOrder(a, s)
    else if o.letter == 'e' then
      if StartsWith(a, "-") || !EndsWith(a, ".xlsx") then Failure(Exit(1))
      else Success(s.(excel := Replace(a, "/", "\\\\")))
    else if o.letter == 'h' then Failure(Exit(0))
    else if o.letter == 'i' then
      if StartsWith(a, "-") || !(EndsWith(a, ".ics") || EndsWith(a, ".zip")) then Failure(Exit(1))
      else Success(s.(ics := a))
    else if o.letter == 'o' then
      if StartsWith(a, "-") || !EndsWith(a, ".pdf") then Failure(Exit(1))
      else Success(s.(pdffn := a))
    else if o.letter == 'm' then MonthRange(a, s)
    else if o.letter == 'a' then Success(s.(dotypes := s.dotypes.(a := false)))
    else if o.letter == 'b' then Success(s.(dotypes := s.dotypes.(b := false)))
    else if o.letter == 'l' then Success(s.(dolist := true))
    else if o.letter == 'p' then Success(s.(dotypes := s.dotypes.(p := false)))
    else if o.letter == 'r' then Success(s.(dotypes := s.dotypes.(r := false)))
    else if o.letter == 's' then
      if StartsWith(a, "-") then Failure(Exit(1)) else Success(s.(calnames := s.calnames + [a]))
    else Failure(AssertionError)
  }

  /** The options applied in order; the first that stops the run stops it. */
  function ApplyAll(opts: seq<Opt>, s: Settings): Result<Settings, Stop>
    decreases |opts|
  {
    if opts == [] then Success(s)
    else
      match ApplyOpt(opts[0], s)
      case Failure(e) => Failure(e)
      case Success(s') => ApplyAll(opts[1..], s')
  }

  /** The option loop of `main`. */
  method ParseOptions(opts: seq<Opt>, now: Day) returns (r: Result<Settings, Stop>)
    ensures r == ApplyAll(opts, Defaults(now))
    ensures r.Success? ==> Sane(r.value)
  {
    var s := Defaults(now);
    var i := 0;
    while i < |opts|
      invariant 0 <= i <= |opts|
      invariant ApplyAll(opts, Defaults(now)) == ApplyAll(opts[i..], s)
      invariant Sane(s)
    {
      assert opts[i..][0] == opts[i] && opts[i..][1..] == opts[i + 1..];
      var step := ApplyOpt(opts[i], s);
      if step.Failure? {
        return Failure(step.error);
      }
      s := step.value;
      i := i + 1;
    }
    return Success(s);
  }

  // ---------------------------------------------------------------------
  // properties of the option loop

  /** Sane settings stay sane through any options that do not stop the run. */
  lemma {:induction false} AllKeepSane(opts: seq<Opt>, s: Settings)
    requires Sane(s)
    ensures ApplyAll(opts, s).Success? ==> Sane(ApplyAll(opts, s).value)
    decreases |opts|
  {
    if opts != [] {
      if ApplyOpt(opts[0], s).Success? {
        AllKeepSane(opts[1..], ApplyOpt(opts[0], s).value);
      }
    }
  }

  /** `-c` accepts one letter naming the current source, or a current and
      an old letter; the old side of a lone letter is empty; values that
      start with "-" are rejected and other lengths are ignored. */
  lemma CompOrderRules(a: string, s: Settings)
    ensures StartsWith(a, "-") ==> CompOrder(a, s) == Failure(Exit(1))
    ensures !StartsWith(a, "-") && |a| == 1 ==>
      (CompOrder(a, s).Success? <==> a[0] == 'e' || a[0] == 'i')
      && (CompOrder(a, s).Success? ==> CompOrder(a, s).value == s.(cur := Some(a), prev := None))
    ensures !StartsWith(a, "-") && |a| == 2 ==>
      (CompOrder(a, s).Success? <==> (a[0] == 'e' || a[0] == 'i') && a[1] in "eicv")
      && (CompOrder(a, s).Success? ==> CompOrder(a, s).value == s.(cur := Some(a[..1]), prev := Some(a[1..])))
    ensures !StartsWith(a, "-") && |a| != 1 && |a| != 2 ==> CompOrder(a, s) == Success(s)
    ensures CompOrder(a, s).Failure? ==> CompOrder(a, s).error == Exit(1)
  {
    if |a| == 1 {
      assert a == [a[0]];
    }
    if |a| == 2 {
      assert a[..1] == [a[0]] && a[1..] == [a[1]];
      assert a[1] in "eicv" <==> [a[1]] in ValidOld;
    }
  }

  /** Each flag option clears its own event type and nothing else. */
  lemma FlagOptions(s: Settings, arg: string)
    ensures ApplyOpt(Opt('a', arg), s) == Success(s.(dotypes := TunerEvents.Flags(false, s.dotypes.b, s.dotypes.p, s.dotypes.r)))
    ensures ApplyOpt(Opt('b', arg), s) == Success(s.(dotypes := TunerEvents.Flags(s.dotypes.a, false, s.dotypes.p, s.dotypes.r)))
    ensures ApplyOpt(Opt('p', arg), s) == Success(s.(dotypes := TunerEvents.Flags(s.dotypes.a, s.dotypes.b, false, s.dotypes.r)))
    ensures ApplyOpt(Opt('r', arg), s) == Success(s.(dotypes := TunerEvents.Flags(s.dotypes.a, s.dotypes.b, s.dotypes.p, false)))
    ensures ApplyOpt(Opt('h', arg), s) == Failure(Exit(0))
  {
  }

  /** `-e` takes a spreadsheet name ending in `.xlsx` and doubles its
      forward slashes into backslash pairs; a name without them is kept. */
  lemma ExcelOption(s: Settings, a: string)
    requires !StartsWith(a, "-")
    ensures ApplyOpt(Opt('e', a), s).Success? <==> EndsWith(a, ".xlsx")
    ensures ApplyOpt(Opt('e', a), s).Success? ==> ApplyOpt(Opt('e', a), s).value == s.(excel := Replace(a, "/", "\\\\"))
    ensures ApplyOpt(Opt('e', a), s).Success? && !Contains(a, "/") ==> ApplyOpt(Opt('e', a), s).value == s.(excel := a)
  {
    if !Contains(a, "/") {
      ReplaceAbsent(a, "/", "\\\\");
    }
  }

  /** `-i` takes a feed name ending in `.ics` or `.zip`, `-o` a PDF name
      ending in `.pdf`. */
  lemma FileOptions(s: Settings, a: string)
    requires !StartsWith(a, "-")
    ensures ApplyOpt(Opt('i', a), s) == if EndsWith(a, ".ics") || EndsWith(a, ".zip") then Success(s.(ics := a)) else Failure(Exit(1))
    ensures ApplyOpt(Opt('o', a), s) == if EndsWith(a, ".pdf") then Success(s.(pdffn := a)) else Failure(Exit(1))
  {
  }

  /** A plain number has neither a range dash nor a year colon. */
  lemma NumberParts(n: nat)
    ensures Split(NatToString(n), '-') == [NatToString(n)]
    ensures Split(NatToString(n), ':') == [NatToString(n)]
    ensures ParseInt(NatToString(n)) == Some(n)
    ensures !StartsWith(NatToString(n), "-")
  {
    var s := NatToString(n);
    assert '-' !in s && ':' !in s by {
      assert forall i :: 0 <= i < |s| ==> IsDigit(s[i]);
    }
    assert |s| > 0 && s[0] != '-';
    SplitNoSep(s, '-');
    SplitNoSep(s, ':');
    ParseIntOfNat(n);
  }

  /** `-m n` for a month n selects that one month of the start year. */
  lemma OneMonth(s: Settings, m: nat)
    requires 1 <= m <= 12
    ensures var r := MonthRange(NatToString(m), s);
      r.Success? && r.value.m1 == m && r.value.m2 == m && r.value.y1 == s.y1 && r.value.y2 == s.y1
      && r.value.startmo == r.value.endmo == Str(NatToString(m))
  {
    NumberParts(m);
    assert !StartsWith(NatToString(m), "-") by {
      assert IsDigit(NatToString(m)[0]);
    }
  }

  /** `-m yyyy` selects all of that year. */
  lemma OneYear(s: Settings, y: nat)
    requires 2010 <= y <= 2099
    ensures var r := MonthRange(NatToString(y), s);
      r.Success? && r.value.m1 == 1 && r.value.m2 == 12 && r.value.y1 == y && r.value.y2 == y
      && r.value.startmo == r.value.endmo == Str(NatToString(y))
  {
    NumberParts(y);
    assert !StartsWith(NatToString(y), "-") by {
      assert IsDigit(NatToString(y)[0]);
    }
  }

  /** `-m n` for a number that is neither a month nor a year of
      2010..2099 raises. */
  lemma BareOther(s: Settings, n: nat)
    requires !(1 <= n <= 12) && !(2010 <= n <= 2099)
    ensures MonthRange(NatToString(n), s) == Failure(UserWarning)
  {
    var a := NatToString(n);
    NumberParts(n);
  }

  /** `-m p` for a lone part that is not a number raises `ValueError`. */
  lemma BareNotNumber(s: Settings, p: string)
    requires '-' !in p && ':' !in p && ParseInt(p).None?
    ensures MonthRange(p, s) == Failure(ValueError)
  {
    SplitNoSep(p, '-');
    SplitNoSep(p, ':');
    assert !StartsWith(p, "-") by {
      if |p| > 0 {
        assert p[0] != '-';
      }
    }
  }

  /** A `-m` range whose end is a bare year always starts in January, even
      when its start named another month. */
  lemma EndYearResetsStart(a: string, s: Settings, y: nat)
    requires 2010 <= y <= 2099
    requires var mos := Split(a, '-'); |mos| == 2 && mos[1] == NatToString(y)
    ensures MonthRange(a, s).Success? ==>
      MonthRange(a, s).value.m1 == 1 && MonthRange(a, s).value.m2 == 12 && MonthRange(a, s).value.y2 == y
  {
    NumberParts(y);
  }

  /** A `-m` value with more than one dash raises UserWarning. */
  lemma TooManyDashes(a: string, s: Settings)
    requires !StartsWith(a, "-") && |Split(a, '-')| > 2
    ensures MonthRange(a, s) == Failure(UserWarning)
  {
  }

  /** A `yyyy:m` start is accepted exactly for years 2010 to 2099 and
      months 1 to 12. */
  lemma YearMonthStart(y: nat, m: nat, s: Settings)
    ensures var r := StartPart(NatToString(y) + ":" + NatToString(m), s);
      (r.Success? <==> 2010 <= y <= 2099 && 1 <= m <= 12)
      && (r.Success? ==> r.value == s.(y1 := y, m1 := m))
      && (r.Failure? ==> r.error == UserWarning)
  {
    var p := NatToString(y) + ":" + NatToString(m);
    ColonSplit(y, m);
    NumberParts(y);
    NumberParts(m);
    StartOfPair(p, s, NatToString(y), NatToString(m), y, m);
  }

  lemma StartOfPair(p: string, s: Settings, ys: string, ms: string, y: int, m: int)
    requires Split(p, ':') == [ys, ms] && ParseInt(ys) == Some(y) && ParseInt(ms) == Some(m)
    ensures StartPart(p, s) == if 2010 <= y <= 2099 && 1 <= m <= 12 then Success(s.(y1 := y, m1 := m)) else Failure(UserWarning)
  {
  }

  lemma ColonSplit(y: nat, m: nat)
    ensures Split(NatToString(y) + ":" + NatToString(m), ':') == [NatToString(y), NatToString(m)]
  {
    var ys, ms := NatToString(y), NatToString(m);
    NumberParts(y);
    NumberParts(m);
    assert ys + ":" + ms == ys + [':'] + ms;
    SplitAround(ys, ':', ms);
  }

  // ---------------------------------------------------------------------
  // after the options

  /** A loader the run calls: the spreadsheet, or the calendar feed with the
      calendar names given by `-s`. */
  datatype Source = Workbook(path: string) | Feed(path: string, names: seq<string>)

  /** What `main` does once the options are read. */
  datatype Plan = Plan(
    from: Instant,
    to: Instant,
    ext: Option<string>,
    listonly: bool,
    current: Option<Source>,
    prior: Option<Source>,
    pdf: Option<string>,
    list: bool,
    output: Option<string>)

  /** The extension of the changed-events file the old side calls for. */
  function Ext(prev: Option<string>): Option<string> {
    if prev == Some("e") || prev == Some("v") then Some("csv")
    else if prev == Some("i") || prev == Some("c") then Some("ics")
    else None
  }

  function LoaderOf(letter: string, s: Settings): Source {
    if letter == "e" then Workbook(s.excel) else Feed(s.ics, s.calnames)
  }

  /** `complist`: the spreadsheet is loaded when either side names it, the
      feed likewise; each goes to the first slot when it is the current
      side and to the second otherwise. */
  function Slots(cur: Option<string>, prev: Option<string>, s: Settings): (Option<Source>, Option<Source>) {
    var e := cur == Some("e") || prev == Some("e");
    var i := cur == Some("i") || prev == Some("i");
    var c0: Option<Source> := if e && cur == Some("e") then Some(Workbook(s.excel)) else None;
    var c1: Option<Source> := if e && cur != Some("e") then Some(Workbook(s.excel)) else None;
    var d0 := if i && cur == Some("i") then Some(Feed(s.ics, s.calnames)) else c0;
    var d1 := if i && cur != Some("i") then Some(Feed(s.ics, s.calnames)) else c1;
    (d0, d1)
  }

  /** `"%02d" % i` */
  function Pad2Int(i: int): string {
    if i < 0 then IntToString(i) else Pad2(i)
  }

  /** The base name of the changed-events file. */
  function BaseName(s: Settings): string {
    if s.startmo == Num(1) && s.endmo == Num(12) && s.y1 == s.y2 then "events" + IntToString(s.y1)
    else if s.startmo == s.endmo && s.y1 == s.y2 then "events" + IntToString(s.y1) + Pad2Int(s.m1)
    else if s.y1 == s.y2 then "events" + IntToString(s.y1) + Pad2Int(s.m1) + Pad2Int(s.m2)
    else "events" + IntToString(s.y1) + Pad2Int(s.m1) + IntToString(s.y2) + Pad2Int(s.m2)
  }

  /** The rest of `main`: stop when every event type is off; otherwise the
      window from the first day of (y1, m1) to the last second of (y2, m2),
      the loaders, and the output: a listing or PDF, or a changed-events
      file when the old side calls for one. */
  function MakePlan(s: Settings): Result<Plan, Stop>
    requires Sane(s)
  {
    var f := s.dotypes;
    if !(f.a || f.b || f.p || f.r) then Failure(Exit(0))
    else
      var from := DateTime(Date(s.y1, s.m1, 1), 0, 0, 0);
      var to := DateTime(LastDayOfMonth(Date(s.y2, s.m2, 1)), 23, 59, 59);
      var ext := Ext(s.prev);
      var listonly := s.dolist || s.pdffn != "";
      var prev := if listonly then Some("") else s.prev;
      var slots := Slots(s.cur, prev, s);
      Success(Plan(from, to, ext, listonly, slots.0, slots.1,
                   if s.pdffn != "" then Some(s.pdffn) else None, s.dolist,
                   if !listonly && ext.Some? then Some(BaseName(s) + "." + ext.value) else None))
  }

  // ---------------------------------------------------------------------
  // properties of the plan

  /** The run stops, with code 0, exactly when all four event types are
      off. */
  lemma StopsWhenAllOff(s: Settings)
    requires Sane(s)
    ensures MakePlan(s).Failure? <==> !s.dotypes.a && !s.dotypes.b && !s.dotypes.p && !s.dotypes.r
    ensures MakePlan(s).Failure? ==> MakePlan(s).error == Exit(0)
  {
  }

  /** In wall-clock terms the window holds exactly the instants of the
      months from (y1, m1) to (y2, m2): it starts at midnight on the first
      of m1 and an instant lies in it exactly when its month falls in the
      range. */
  lemma WindowIsMonths(s: Settings, t: Instant)
    requires Sane(s) && MakePlan(s).Success?
    ensures var p := MakePlan(s).value;
      p.from == DateTime(Date(s.y1, s.m1, 1), 0, 0, 0)
      && p.to == DateTime(Date(s.y2, s.m2, DaysInMonth(s.y2, s.m2)), 23, 59, 59)
      && (NotAfter(p.from, t) && NotAfter(t, p.to)
          <==> s.y1 * 12 + s.m1 <= t.date.year * 12 + t.date.month <= s.y2 * 12 + s.m2)
  {
  }

  /** A range that ends before it starts gives an empty window. */
  lemma InvertedRangeEmpty(s: Settings)
    requires Sane(s) && MakePlan(s).Success?
    requires s.y2 < s.y1 || (s.y1 == s.y2 && s.m2 < s.m1)
    ensures Before(MakePlan(s).value.to, MakePlan(s).value.from)
  {
  }

  /** An inverted range still loads something: a key passes the loaders'
      window test exactly when it starts no later than `to` and ends no
      earlier than `from`, so exactly the events that span the whole gap
      from `to` to `from` are loaded. */
  lemma InvertedRangeSpans(s: Settings, k: (Instant, Instant))
    requires Sane(s) && MakePlan(s).Success?
    requires s.y2 < s.y1 || (s.y1 == s.y2 && s.m2 < s.m1)
    ensures var p := MakePlan(s).value;
      TunerEvents.InWindow(k, p.from, p.to) <==> NotAfter(k.0, p.to) && NotAfter(p.from, k.1)
    ensures var p := MakePlan(s).value;
      TunerEvents.InWindow(k, p.from, p.to) ==> Before(k.0, p.from) && Before(p.to, k.1)
  {
  }

  /** The current side is always loaded into the first slot; the second
      slot holds the old side's loader exactly when the old side is the
      other source and no listing or PDF was asked for. */
  lemma SlotsRule(s: Settings)
    requires Sane(s) && MakePlan(s).Success?
    ensures var p := MakePlan(s).value;
      p.current == Some(LoaderOf(s.cur.value, s))
      && (p.prior.Some? <==> !p.listonly && s.prev.Some? && s.prev.value in ValidCur && s.prev != s.cur)
      && (p.prior.Some? ==> p.prior == Some(LoaderOf(s.prev.value, s)))
  {
  }

  /** A changed-events file is written exactly when no listing or PDF was
      asked for and the old side is one of the four letters: a csv file for
      the spreadsheet sides, an ics file for the feed sides. */
  lemma OutputRule(s: Settings)
    requires Sane(s) && MakePlan(s).Success?
    ensures var p := MakePlan(s).value;
      (p.output.Some? <==> !p.listonly && s.prev.Some?)
      && (p.output.Some? && s.prev.value in ["e", "v"] ==> EndsWith(p.output.value, ".csv"))
      && (p.output.Some? && s.prev.value in ["i", "c"] ==> EndsWith(p.output.value, ".ics"))
      && (p.listonly <==> s.dolist || s.pdffn != "")
  {
    PlanOutput(s);
    var p := MakePlan(s).value;
    ExtOf(s.prev);
    if p.output.Some? {
      DottedName(BaseName(s), Ext(s.prev).value);
      DottedSuffixes();
    }
  }

  /** The output part of the plan. */
  lemma PlanOutput(s: Settings)
    requires Sane(s) && MakePlan(s).Success?
    ensures var p := MakePlan(s).value;
      p.listonly == (s.dolist || s.pdffn != "")
      && p.output == if !p.listonly && Ext(s.prev).Some? then Some(BaseName(s) + "." + Ext(s.prev).value) else None
  {
  }

  /** The extension of the changed-events file: csv for an old side of e
      or v, ics for i or c. */
  lemma ExtOf(prev: Option<string>)
    requires prev.Some? ==> prev.value in ValidOld
    ensures Ext(prev).Some? <==> prev.Some?
    ensures prev.Some? && prev.value in ["e", "v"] ==> Ext(prev) == Some("csv")
    ensures prev.Some? && prev.value in ["i", "c"] ==> Ext(prev) == Some("ics")
  {
  }

  lemma DottedSuffixes()
    ensures "." + "csv" == ".csv" && "." + "ics" == ".ics"
  {
    assert ("." + "csv")[1..] == "csv";
    assert ("." + "ics")[1..] == "ics";
  }

  /** A name followed by a dot and an extension ends with both. */
  lemma DottedName(base: string, ext: string)
    ensures EndsWith(base + "." + ext, "." + ext)
  {
    assert (base + "." + ext)[|base|..] == "." + ext;
  }

  /** Options without `-m` leave the months as they were. */
  lemma {:induction false} NoRangeKeepsMonths(opts: seq<Opt>, s: Settings)
    requires forall i :: 0 <= i < |opts| ==> opts[i].letter != 'm'
    ensures var r := ApplyAll(opts, s);
      r.Success? ==>
        r.value.startmo == s.startmo && r.value.endmo == s.endmo
        && r.value.y1 == s.y1 && r.value.m1 == s.m1 && r.value.y2 == s.y2 && r.value.m2 == s.m2
    decreases |opts|
  {
    if opts != [] {
      var o := opts[0];
      var r := ApplyOpt(o, s);
      if r.Success? {
        assert r.value.startmo == s.startmo && r.value.endmo == s.endmo
          && r.value.y1 == s.y1 && r.value.m1 == s.m1 && r.value.y2 == s.y2 && r.value.m2 == s.m2;
        NoRangeKeepsMonths(opts[1..], r.value);
      }
    }
  }

  /** Without `-m` the window runs from the current month to the end of the
      year, yet the file is named for the whole year. */
  lemma DefaultRangeName(opts: seq<Opt>, now: Day)
    requires forall i :: 0 <= i < |opts| ==> opts[i].letter != 'm'
    requires ApplyAll(opts, Defaults(now)).Success?
    ensures var s := ApplyAll(opts, Defaults(now)).value;
      Sane(s) && BaseName(s) == "events" + IntToString(now.year)
      && (MakePlan(s).Success? ==>
            MakePlan(s).value.from == DateTime(Date(now.year, now.month, 1), 0, 0, 0)
            && MakePlan(s).value.to == DateTime(Date(now.year, 12, 31), 23, 59, 59))
  {
    NoRangeKeepsMonths(opts, Defaults(now));
    AllKeepSane(opts, Defaults(now));
    var s := ApplyAll(opts, Defaults(now)).value;
    if MakePlan(s).Success? {
      PlanWindow(s);
      assert DaysInMonth(now.year, 12) == 31;
    }
  }

  /** The window of the plan: midnight on the first of (y1, m1) to the
      last second of (y2, m2). */
  lemma PlanWindow(s: Settings)
    requires Sane(s) && MakePlan(s).Success?
    ensures MakePlan(s).value.from == DateTime(Date(s.y1, s.m1, 1), 0, 0, 0)
    ensures MakePlan(s).value.to == DateTime(Date(s.y2, s.m2, DaysInMonth(s.y2, s.m2)), 23, 59, 59)
  {
  }

  /** `-m` replaces `startmo` and `endmo` by strings, so a whole year asked
      for with `-m yyyy` is named `eventsyyyy01`, not `eventsyyyy`. */
  lemma WholeYearName(s: Settings, y: nat)
    requires 2010 <= y <= 2099
    ensures var r := MonthRange(NatToString(y), s);
      r.Success? && BaseName(r.value) == "events" + NatToString(y) + "01"
  {
    OneYear(s, y);
    SameMonthName(MonthRange(NatToString(y), s).value);
    JanuaryDigits();
  }

  lemma JanuaryDigits()
    ensures Pad2Int(1) == "01"
  {
    assert NatToString(1) == "1";
  }

  /** Equal `startmo` and `endmo` strings within one year name the file by
      the year and the start month. */
  lemma SameMonthName(v: Settings)
    requires v.startmo.Str? && v.startmo == v.endmo && v.y1 == v.y2 && v.y1 >= 0
    ensures BaseName(v) == "events" + NatToString(v.y1) + Pad2Int(v.m1)
  {
  }

  /** `-m n` for one month names the file by year and two-digit month. */
  lemma OneMonthName(s: Settings, m: nat)
    requires 1 <= m <= 12 && s.y1 >= 0
    ensures var r := MonthRange(NatToString(m), s);
      r.Success? && BaseName(r.value) == "events" + NatToString(s.y1) + Pad2(m)
  {
    OneMonth(s, m);
    SameMonthName(MonthRange(NatToString(m), s).value);
  }
}
