// When a schedule is active (client/schedule.go).  Time is counted in nanoseconds of UTC; the
// calendar, from day numbers to dates, is a parameter.
module Schedule {
  import opened Decimal
  import opened Wrappers

  const MINUTE: int := 60_000_000_000
  const DAY: int := 86_400_000_000_000
  const MINUTES_A_DAY: nat := 1440

  datatype Date = Date(year: nat, month: nat, day: nat)

  type Calendar = int -> Date

  // The floor: days before the first one are negative.
  function DayOf(t: int): int { t / DAY }

  // Day 0 is a Thursday; Sunday is 0.
  function WeekdayOf(day: int): int { (day + 4) % 7 }

  // ----- texts -----

  function Two(s: string, i: nat): nat
    requires i + 2 <= |s| && IsDigit(s[i]) && IsDigit(s[i + 1])
  {
    10 * DigitOf(s[i]) + DigitOf(s[i + 1])
  }

  predicate Pair(s: string, i: nat) { i + 2 <= |s| && IsDigit(s[i]) && IsDigit(s[i + 1]) }

  // The first place where one or two digits, a colon and two digits stand, as minutes.
  function FindHourMin(s: string): Option<nat> {
    if s == "" then None
    else if Pair(s, 0) && |s| > 2 && s[2] == ':' && Pair(s, 3) then Some(60 * Two(s, 0) + Two(s, 3))
    else if IsDigit(s[0]) && |s| > 1 && s[1] == ':' && Pair(s, 2) then Some(60 * DigitOf(s[0]) + Two(s, 2))
    else FindHourMin(s[1..])
  }

  // The first place where a date of the form 2021-08-09 stands.
  function FindDate(s: string): Option<Date> {
    if |s| < 10 then None
    else if Pair(s, 0) && Pair(s, 2) && s[4] == '-' && Pair(s, 5) && s[7] == '-' && Pair(s, 8) then
      Some(Date(100 * Two(s, 0) + Two(s, 2), Two(s, 5), Two(s, 8)))
    else FindDate(s[1..])
  }

  predicate Digit(s: string, i: nat) { i < |s| && '0' <= s[i] <= '9' }

  function Value(s: string, i: nat): nat
    requires Digit(s, i)
  {
    s[i] as int - '0' as int
  }

  predicate At(s: string, i: nat, c: char) { i < |s| && s[i] == c }

  // Does a text of the form 07:30 stand at i?
  predicate LongTime(s: string, i: nat) {
    Digit(s, i) && Digit(s, i + 1) && At(s, i + 2, ':') && Digit(s, i + 3) && Digit(s, i + 4)
  }

  // One of the form 7:30?
  predicate ShortTime(s: string, i: nat) {
    Digit(s, i) && At(s, i + 1, ':') && Digit(s, i + 2) && Digit(s, i + 3)
  }

  // The minutes of the day that it tells.
  function MinutesAt(s: string, i: nat): nat
    requires LongTime(s, i) || ShortTime(s, i)
  {
    if LongTime(s, i) then 60 * (10 * Value(s, i) + Value(s, i + 1)) + 10 * Value(s, i + 3) + Value(s, i + 4)
    else 60 * Value(s, i) + 10 * Value(s, i + 2) + Value(s, i + 3)
  }

  ghost predicate FirstTime(s: string, i: nat) {
    (LongTime(s, i) || ShortTime(s, i)) && forall j :: 0 <= j < i ==> !LongTime(s, j) && !ShortTime(s, j)
  }

  // The time that is read is the first that stands in the text, two digits of the hour if there are.
  lemma {:induction false} HourMinRead(s: string)
    ensures
      match FindHourMin(s)
      case None => forall i :: 0 <= i < |s| ==> !LongTime(s, i) && !ShortTime(s, i)
      case Some(n) => exists i :: FirstTime(s, i) && n == MinutesAt(s, i)
  {
    if s != "" {
      forall i | 1 <= i
        ensures (LongTime(s, i) <==> LongTime(s[1..], i - 1)) && (ShortTime(s, i) <==> ShortTime(s[1..], i - 1))
        ensures LongTime(s, i) || ShortTime(s, i) ==> MinutesAt(s, i) == MinutesAt(s[1..], i - 1)
      {
        TimeShifted(s, i);
      }
      hide MinutesAt;
      if LongTime(s, 0) || ShortTime(s, 0) {
        HourMinHere(s);
        assert FirstTime(s, 0);
      } else {
        HourMinLater(s);
        HourMinRead(s[1..]);
        if FindHourMin(s).Some? {
          var i: nat :| FirstTime(s[1..], i) && FindHourMin(s).value == MinutesAt(s[1..], i);
          FirstLater(s, i);
          assert FirstTime(s, i + 1);
        }
      }
    }
  }

  lemma {:induction false} TimeShifted(s: string, i: nat)
    requires s != "" && i >= 1
    ensures (LongTime(s, i) <==> LongTime(s[1..], i - 1)) && (ShortTime(s, i) <==> ShortTime(s[1..], i - 1))
    ensures LongTime(s, i) || ShortTime(s, i) ==> MinutesAt(s, i) == MinutesAt(s[1..], i - 1)
  {
  }

  lemma {:induction false} HourMinHere(s: string)
    requires LongTime(s, 0) || ShortTime(s, 0)
    ensures FindHourMin(s) == Some(MinutesAt(s, 0))
  {
  }

  lemma {:induction false} HourMinLater(s: string)
    requires s != "" && !LongTime(s, 0) && !ShortTime(s, 0)
    ensures FindHourMin(s) == FindHourMin(s[1..])
  {
  }

  lemma {:induction false} FirstLater(s: string, i: nat)
    requires s != "" && !LongTime(s, 0) && !ShortTime(s, 0) && FirstTime(s[1..], i)
    ensures FirstTime(s, i + 1)
  {
    hide LongTime, ShortTime;
    TimeShifted(s, i + 1);
    forall j | 0 <= j < i + 1
      ensures !LongTime(s, j) && !ShortTime(s, j)
    {
      if j > 0 {
        TimeShifted(s, j);
      }
    }
  }

  // Does a date of the form 2021-08-09 stand at i, and which?
  predicate DateText(s: string, i: nat) {
    && Digit(s, i) && Digit(s, i + 1) && Digit(s, i + 2) && Digit(s, i + 3) && At(s, i + 4, '-')
    && Digit(s, i + 5) && Digit(s, i + 6) && At(s, i + 7, '-') && Digit(s, i + 8) && Digit(s, i + 9)
  }

  function DateAt(s: string, i: nat): Date
    requires DateText(s, i)
  {
    Date(1000 * Value(s, i) + 100 * Value(s, i + 1) + 10 * Value(s, i + 2) + Value(s, i + 3),
         10 * Value(s, i + 5) + Value(s, i + 6), 10 * Value(s, i + 8) + Value(s, i + 9))
  }

  ghost predicate FirstDate(s: string, i: nat) {
    DateText(s, i) && forall j :: 0 <= j < i ==> !DateText(s, j)
  }

  // The date that is read is the first that stands in the text.
  lemma {:induction false} DateRead(s: string)
    ensures
      match FindDate(s)
      case None => forall i :: 0 <= i < |s| ==> !DateText(s, i)
      case Some(d) => exists i :: FirstDate(s, i) && d == DateAt(s, i)
  {
    if |s| >= 10 {
      forall i | 1 <= i
        ensures DateText(s, i) <==> DateText(s[1..], i - 1)
        ensures DateText(s, i) ==> DateAt(s, i) == DateAt(s[1..], i - 1)
      {
        DateShifted(s, i);
      }
      DateHere(s);
      hide DateText, DateAt;
      if DateText(s, 0) {
        assert FirstDate(s, 0);
      } else {
        DateRead(s[1..]);
        if FindDate(s).Some? {
          var i: nat :| FirstDate(s[1..], i) && FindDate(s).value == DateAt(s[1..], i);
          assert forall j :: 1 <= j < i + 1 ==> (DateText(s, j) <==> DateText(s[1..], j - 1));
          assert FirstDate(s, i + 1);
        }
      }
    }
  }

  lemma {:induction false} DateShifted(s: string, i: nat)
    requires s != "" && i >= 1
    ensures DateText(s, i) <==> DateText(s[1..], i - 1)
    ensures DateText(s, i) ==> DateAt(s, i) == DateAt(s[1..], i - 1)
  {
  }

  lemma {:induction false} DateHere(s: string)
    requires |s| >= 10
    ensures FindDate(s) == if DateText(s, 0) then Some(DateAt(s, 0)) else FindDate(s[1..])
  {
  }

  // ----- time ranges -----

  datatype TimeRange = TimeRange(start: int, end: int) {
    // A range that ends before it starts contains nothing.
    predicate In(t: int) { start <= end && start <= t < end }
  }

  predicate OnWeekday(tr: TimeRange, weekdays: seq<int>) { WeekdayOf(DayOf(tr.start)) in weekdays }

  // The ranges that start on one of the weekdays, in order; all of them if there is no list.
  function OnWeekdays(trs: seq<TimeRange>, weekdays: seq<int>): seq<TimeRange> {
    if weekdays == [] || trs == [] then trs
    else
      var n := |trs| - 1;
      OnWeekdays(trs[..n], weekdays) + (if OnWeekday(trs[n], weekdays) then [trs[n]] else [])
  }

  // A range as often as its date is listed.
  function Listed(tr: TimeRange, dates: seq<string>, cal: Calendar): seq<TimeRange> {
    if dates == [] then []
    else
      var n := |dates| - 1;
      Listed(tr, dates[..n], cal) + (if FindDate(dates[n]) == Some(cal(DayOf(tr.start))) then [tr] else [])
  }

  function OnDates(trs: seq<TimeRange>, dates: seq<string>, cal: Calendar): seq<TimeRange> {
    if trs == [] then []
    else OnDates(trs[..|trs| - 1], dates, cal) + Listed(trs[|trs| - 1], dates, cal)
  }

  predicate AllDates(dates: seq<string>) { forall i :: 0 <= i < |dates| ==> FindDate(dates[i]).Some? }

  class TimeRanges {
    var ranges: seq<TimeRange>

    constructor (ranges: seq<TimeRange>)
      ensures this.ranges == ranges
    {
      this.ranges := ranges;
    }

    method FilterWeekdays(weekdays: seq<int>)
      modifies this
      ensures ranges == OnWeekdays(old(ranges), weekdays)
    {
      if |weekdays| <= 0 {
        return;
      }
      var trsNew: seq<TimeRange> := [];
      for i := 0 to |ranges|
        invariant ranges == old(ranges) && trsNew == OnWeekdays(ranges[..i], weekdays)
      {
        var wdFound := false;
        for j := 0 to |weekdays|
          invariant !wdFound && WeekdayOf(DayOf(ranges[i].start)) !in weekdays[..j]
        {
          if WeekdayOf(DayOf(ranges[i].start)) == weekdays[j] {
            wdFound := true;
            break;
          }
        }
        assert weekdays[..|weekdays|] == weekdays;
        assert wdFound <==> OnWeekday(ranges[i], weekdays);
        assert ranges[..i + 1][..i] == ranges[..i];
        if wdFound {
          trsNew := trsNew + [ranges[i]];
        }
      }
      assert ranges[..|ranges|] == ranges;
      ranges := trsNew;
    }

    // A date that cannot be read is an error, but only if there is a range to compare it with.
    method FilterDates(dates: seq<string>, cal: Calendar) returns (err: bool)
      modifies this
      ensures err <==> dates != [] && old(ranges) != [] && !AllDates(dates)
      ensures err ==> ranges == old(ranges)
      ensures !err ==> ranges == if dates == [] then old(ranges) else OnDates(old(ranges), dates, cal)
    {
      hide FindDate, DayOf, AllDates;
      if |dates| <= 0 {
        return false;
      }
      var trsNew: seq<TimeRange> := [];
      for i := 0 to |ranges|
        invariant ranges == old(ranges) && trsNew == OnDates(ranges[..i], dates, cal)
        invariant i > 0 ==> AllDates(dates)
      {
        assert ranges[..i + 1][..i] == ranges[..i];
        trsNew, err := AppendListed(trsNew, ranges[i], dates, cal);
        if err {
          return;
        }
      }
      assert ranges[..|ranges|] == ranges;
      ranges := trsNew;
      err := false;
    }

    // The loop over the dates for one range.
    static method AppendListed(trs: seq<TimeRange>, tr: TimeRange, dates: seq<string>, cal: Calendar)
      returns (trsNew: seq<TimeRange>, err: bool)
      ensures err <==> !AllDates(dates)
      ensures !err ==> trsNew == trs + Listed(tr, dates, cal)
    {
      hide FindDate, DayOf;
      trsNew := trs;
      var day := cal(DayOf(tr.start));
      for j := 0 to |dates|
        invariant trsNew == trs + Listed(tr, dates[..j], cal) && AllDates(dates[..j])
      {
        assert dates[..j + 1][..j] == dates[..j];
        var d := FindDate(dates[j]);
        if d.None? {
          return trsNew, true;
        }
        if d.value.year != day.year {
          continue;
        }
        if d.value.month != day.month {
          continue;
        }
        if d.value.day != day.day {
          continue;
        }
        trsNew := trsNew + [tr];
      }
      assert dates[..|dates|] == dates;
      err := false;
    }

    method In(t: int) returns (found: bool)
      ensures found <==> exists tr :: tr in ranges && tr.In(t)
    {
      for i := 0 to |ranges|
        invariant forall tr :: tr in ranges[..i] ==> !tr.In(t)
      {
        if ranges[i].In(t) {
          return true;
        }
        assert ranges[..i + 1] == ranges[..i] + [ranges[i]];
      }
      assert ranges[..|ranges|] == ranges;
      found := false;
    }
  }

  lemma {:induction false} InOnWeekdays(trs: seq<TimeRange>, weekdays: seq<int>, tr: TimeRange)
    ensures tr in OnWeekdays(trs, weekdays) <==> tr in trs && (weekdays == [] || OnWeekday(tr, weekdays))
  {
    if weekdays != [] && trs != [] {
      InOnWeekdays(trs[..|trs| - 1], weekdays, tr);
    }
  }

  predicate OnDate(day: int, dates: seq<string>, cal: Calendar) {
    exists i :: 0 <= i < |dates| && FindDate(dates[i]) == Some(cal(day))
  }

  lemma {:induction false} InListed(tr: TimeRange, dates: seq<string>, cal: Calendar, r: TimeRange)
    ensures r in Listed(tr, dates, cal) <==> r == tr && OnDate(DayOf(tr.start), dates, cal)
  {
    if dates != [] {
      var n := |dates| - 1;
      InListed(tr, dates[..n], cal, r);
      if OnDate(DayOf(tr.start), dates, cal) {
        var i :| 0 <= i < |dates| && FindDate(dates[i]) == Some(cal(DayOf(tr.start)));
        assert i < n ==> FindDate(dates[..n][i]) == Some(cal(DayOf(tr.start)));
      }
    }
  }

  lemma {:induction false} InOnDates(trs: seq<TimeRange>, dates: seq<string>, cal: Calendar, tr: TimeRange)
    ensures tr in OnDates(trs, dates, cal) <==> tr in trs && OnDate(DayOf(tr.start), dates, cal)
  {
    if trs != [] {
      InOnDates(trs[..|trs| - 1], dates, cal, tr);
      InListed(trs[|trs| - 1], dates, cal, tr);
    }
  }

  // ----- the schedule -----

  datatype Schedule = Schedule(startTime: string, endTime: string, weekdays: seq<int>, dates: seq<string>)

  // A day that both lists allow; an empty list allows every day.
  predicate Allowed(day: int, s: Schedule, cal: Calendar) {
    (s.weekdays == [] || WeekdayOf(day) in s.weekdays) && (s.dates == [] || OnDate(day, s.dates, cal))
  }

  // The window of a day: up to the end on the same day if that is later, or else on the next.
  function Window(day: int, start: nat, end: nat): TimeRange {
    TimeRange(day * DAY + start * MINUTE, (if end > start then day * DAY else day * DAY + DAY) + end * MINUTE)
  }

  ghost predicate InSomeWindow(t: int, s: Schedule, start: nat, end: nat, cal: Calendar) {
    exists day :: Allowed(day, s, cal) && Window(day, start, end).In(t)
  }

  // The windows that activeForTime looks at: that of the day of t and, if it runs into the next
  // day, that of the day before.
  function Candidates(day: int, start: nat, end: nat): seq<TimeRange> {
    if end > start then [Window(day, start, end)] else [Window(day, start, end), Window(day - 1, start, end)]
  }

  ghost predicate ActiveAmong(trs: seq<TimeRange>, t: int, s: Schedule, cal: Calendar) {
    exists tr :: tr in trs && Allowed(DayOf(tr.start), s, cal) && tr.In(t)
  }

  // A date that cannot be read is noticed only if a window is left to compare it with.
  ghost predicate Refused(trs: seq<TimeRange>, s: Schedule) {
    s.dates != [] && !AllDates(s.dates) && exists tr :: tr in trs && (s.weekdays == [] || OnWeekday(tr, s.weekdays))
  }

  // The two windows that are looked at are enough.
  lemma {:induction false} CandidatesSuffice(t: int, s: Schedule, start: nat, end: nat, cal: Calendar)
    requires start < MINUTES_A_DAY && end <= MINUTES_A_DAY
    ensures ActiveAmong(Candidates(DayOf(t), start, end), t, s, cal) <==> InSomeWindow(t, s, start, end, cal)
  {
    var today, trs := DayOf(t), Candidates(DayOf(t), start, end);
    WindowStarts(today, start, end);
    WindowStarts(today - 1, start, end);
    if ActiveAmong(trs, t, s, cal) {
      var tr :| tr in trs && Allowed(DayOf(tr.start), s, cal) && tr.In(t);
      assert Window(DayOf(tr.start), start, end) == tr;
    }
    if InSomeWindow(t, s, start, end, cal) {
      var day :| Allowed(day, s, cal) && Window(day, start, end).In(t);
      WindowStarts(day, start, end);
      DayIs(t, day);
      assert Window(day, start, end) in trs;
    }
  }

  // On which days a window may start: the weekday is listed, or there is no list; and so for the date.
  lemma {:induction false} AllowedIs(day: int, s: Schedule, cal: Calendar)
    ensures Allowed(day, s, cal) <==>
      && (s.weekdays == [] || exists i :: 0 <= i < |s.weekdays| && s.weekdays[i] == (day + 4) % 7)
      && (s.dates == [] || exists i :: 0 <= i < |s.dates| && TellsDate(s.dates[i], cal(day)))
  {
    forall i | 0 <= i < |s.dates|
      ensures FindDate(s.dates[i]) == Some(cal(day)) <==> TellsDate(s.dates[i], cal(day))
    {
      DateTold(s.dates[i], cal(day));
    }
  }

  ghost predicate TellsDate(text: string, d: Date) {
    exists i :: FirstDate(text, i) && DateAt(text, i) == d
  }

  lemma {:induction false} DateTold(text: string, d: Date)
    ensures FindDate(text) == Some(d) <==> TellsDate(text, d)
  {
    hide FindDate, DateText, DateAt;
    DateRead(text);
    if i: nat :| FirstDate(text, i) && DateAt(text, i) == d {
      if FindDate(text).Some? {
        var j: nat :| FirstDate(text, j) && FindDate(text).value == DateAt(text, j);
        assert i == j;
      } else {
        DateInside(text, i);
      }
    }
  }

  lemma {:induction false} DateInside(text: string, i: nat)
    requires DateText(text, i)
    ensures i < |text|
  {
  }

  // The ranges that start on a listed weekday, counted from Sunday.
  lemma {:induction false} OnWeekdayIs(tr: TimeRange, weekdays: seq<int>)
    ensures OnWeekday(tr, weekdays) <==>
      exists i :: 0 <= i < |weekdays| && weekdays[i] == (tr.start / 86_400_000_000_000 + 4) % 7
  {
  }

  // In nanoseconds: from the start on, up to the end of the same day or, if that is not later, of
  // the next.
  lemma {:induction false} WindowContains(day: int, start: nat, end: nat, t: int)
    ensures Window(day, start, end).In(t) <==>
      && day * 86_400_000_000_000 + start * 60_000_000_000 <= t
      && t < (if end > start then day else day + 1) * 86_400_000_000_000 + end * 60_000_000_000
  {
  }

  // The first day of 1970 was a Thursday, and the week goes on from Sunday, which is 0.
  lemma {:induction false} WeekdaysGoOn(t: int)
    ensures 0 <= t < 86_400_000_000_000 ==> WeekdayOf(DayOf(t)) == 4
    ensures WeekdayOf(DayOf(t + 86_400_000_000_000)) == (WeekdayOf(DayOf(t)) + 1) % 7
  {
  }

  lemma {:induction false} WindowStarts(day: int, start: nat, end: nat)
    requires start < MINUTES_A_DAY
    ensures DayOf(Window(day, start, end).start) == day
  {
  }

  lemma {:induction false} DayIs(t: int, day: int)
    ensures day * DAY <= t < day * DAY + DAY ==> DayOf(t) == day
    ensures day * DAY + DAY <= t < day * DAY + 2 * DAY ==> DayOf(t) == day + 1
  {
  }

  // With readable times of day a schedule is active exactly in the windows of the days that its
  // lists allow.
  method ActiveForTime(s: Schedule, t: int, cal: Calendar) returns (active: bool, err: bool)
    ensures FindHourMin(s.startTime).None? || FindHourMin(s.endTime).None? ==> err
    ensures err ==> !active
    ensures FindHourMin(s.startTime).Some? && FindHourMin(s.endTime).Some? ==>
      var trs := Candidates(DayOf(t), FindHourMin(s.startTime).value, FindHourMin(s.endTime).value);
      (err <==> Refused(trs, s)) && (!err ==> (active <==> ActiveAmong(trs, t, s, cal)))
    ensures !err ==>
      var start, end := FindHourMin(s.startTime).value, FindHourMin(s.endTime).value;
      start < MINUTES_A_DAY && end <= MINUTES_A_DAY ==> (active <==> InSomeWindow(t, s, start, end, cal))
  {
    var startTime, endTime := FindHourMin(s.startTime), FindHourMin(s.endTime);
    if startTime.None? {
      return false, true;
    }
    if endTime.None? {
      return false, true;
    }
    var midnight := DayOf(t) * DAY;
    var start, end := midnight + startTime.value * MINUTE, midnight + endTime.value * MINUTE;
    var trs := [TimeRange(start, end)];
    // The end is moved to the next day, and the range of the day before is added.
    if end <= start {
      trs := [TimeRange(start, end + DAY), TimeRange(start - DAY, end)];
    }
    ghost var all := Candidates(DayOf(t), startTime.value, endTime.value);
    assert trs == all;
    var timeRanges := new TimeRanges(trs);
    timeRanges.FilterWeekdays(s.weekdays);
    ghost var kept := timeRanges.ranges;
    forall tr
      ensures tr in kept <==> tr in all && (s.weekdays == [] || OnWeekday(tr, s.weekdays))
    {
      InOnWeekdays(all, s.weekdays, tr);
    }
    assert kept != [] ==> kept[0] in kept;
    err := timeRanges.FilterDates(s.dates, cal);
    if err {
      return false, true;
    }
    forall tr
      ensures tr in timeRanges.ranges <==> tr in all && Allowed(DayOf(tr.start), s, cal)
    {
      InOnDates(kept, s.dates, cal, tr);
    }
    active := timeRanges.In(t);
    if startTime.value < MINUTES_A_DAY && endTime.value <= MINUTES_A_DAY {
      CandidatesSuffice(t, s, startTime.value, endTime.value, cal);
    }
  }

  // The windows that are looked at are enough for all times and lists exactly for times of day,
  // and, trivially, where every window is empty.  The times may be up to 99:99.
  predicate TimesOfDay(start: nat, end: nat) { start < MINUTES_A_DAY && end <= MINUTES_A_DAY }

  predicate EmptyWindows(start: nat, end: nat) { start >= MINUTES_A_DAY + end }

  lemma {:induction false} SufficeIff(start: nat, end: nat, startTime: string, endTime: string, cal: Calendar)
    ensures TimesOfDay(start, end) || EmptyWindows(start, end) <==>
      forall t, weekdays, dates ::
        var s := Schedule(startTime, endTime, weekdays, dates);
        ActiveAmong(Candidates(DayOf(t), start, end), t, s, cal) <==> InSomeWindow(t, s, start, end, cal)
  {
    if TimesOfDay(start, end) || EmptyWindows(start, end) {
      forall t, weekdays, dates
        ensures
          var s := Schedule(startTime, endTime, weekdays, dates);
          ActiveAmong(Candidates(DayOf(t), start, end), t, s, cal) <==> InSomeWindow(t, s, start, end, cal)
      {
        if TimesOfDay(start, end) {
          CandidatesSuffice(t, Schedule(startTime, endTime, weekdays, dates), start, end, cal);
        }
      }
    } else if start < MINUTES_A_DAY {
      MidnightIsMissed(start, end, startTime, endTime, cal);
    } else {
      LateStartIsMissed(start, end, startTime, endTime, cal);
    }
  }

  // An end after 24:00 on the same day is cut off at midnight.  Midnight after day 0, a Thursday,
  // with a window on Thursdays only:
  lemma {:induction false} MidnightIsMissed(start: nat, end: nat, startTime: string, endTime: string, cal: Calendar)
    requires start < MINUTES_A_DAY < end
    ensures
      var s := Schedule(startTime, endTime, [4], []);
      !ActiveAmong(Candidates(DayOf(DAY), start, end), DAY, s, cal) && InSomeWindow(DAY, s, start, end, cal)
  {
    var s := Schedule(startTime, endTime, [4], []);
    assert Allowed(0, s, cal) && Window(0, start, end).In(DAY);
    WindowStarts(1, start, end);
    assert DayOf(DAY) == 1 && WeekdayOf(1) == 5;
  }

  // A start from 24:00 on is looked for on the wrong day.  The start of the window of day 0:
  lemma {:induction false} LateStartIsMissed(start: nat, end: nat, startTime: string, endTime: string, cal: Calendar)
    requires MINUTES_A_DAY <= start && !EmptyWindows(start, end)
    ensures
      var s, t := Schedule(startTime, endTime, [4], []), start * MINUTE;
      !ActiveAmong(Candidates(DayOf(t), start, end), t, s, cal) && InSomeWindow(t, s, start, end, cal)
  {
    var s, t := Schedule(startTime, endTime, [4], []), start * MINUTE;
    assert Window(0, start, end).In(t) && Allowed(0, s, cal);
    var today := DayOf(t);
    DayAtLeast(t);
    forall tr | tr in Candidates(today, start, end) && tr.In(t)
      ensures !Allowed(DayOf(tr.start), s, cal)
    {
      assert tr == Window(today - 1, start, end) && today == 1;
      assert tr.start == t && DayOf(t) == 1 && WeekdayOf(1) == 5;
    }
  }

  lemma {:induction false} DayAtLeast(t: int)
    requires t >= DAY
    ensures DayOf(t) >= 1 && DAY * DayOf(t) <= t
    ensures DayOf(t) > 1 ==> DAY * (DayOf(t) - 1) > 0
  {
  }
}
