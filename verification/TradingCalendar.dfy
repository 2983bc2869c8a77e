/** Trading days: weekdays outside a finite set of holidays. */
module TradingCalendar {
  import opened Options
  import opened Slices

  /** A day is its ordinal, so day 1 is a Monday. */
  type Day = int

  function Weekday(d: Day): int { (d + 6) % 7 }

  predicate Trading(d: Day, holidays: set<Day>) {
    Weekday(d) < 5 && d !in holidays
  }

  /** r is the least trading day after d. */
  ghost predicate IsNext(d: Day, r: Day, holidays: set<Day>) {
    && d < r && Trading(r, holidays)
    && forall x :: d < x < r ==> !Trading(x, holidays)
  }

  lemma {:induction false} HolidaysAreBounded(holidays: set<Day>) returns (m: Day)
    ensures forall h :: h in holidays ==> h <= m
    decreases |holidays|
  {
    m := 0;
    if x :| x in holidays {
      var rest := holidays - {x};
      var n := HolidaysAreBounded(rest);
      m := if n < x then x else n;
      assert forall h :: h in holidays ==> h == x || h in rest;
    }
  }

  /** Whatever the holidays, some later day trades. */
  lemma {:induction false} SomeLaterDayTrades(d: Day, holidays: set<Day>)
    ensures exists t :: d < t && Trading(t, holidays)
  {
    var m := HolidaysAreBounded(holidays);
    var n := if m < d then d + 1 else m + 1;
    assert Trading(n, holidays) || Trading(n + 1, holidays) || Trading(n + 2, holidays);
  }

  lemma {:induction false} LeastUpTo(d: Day, t: Day, holidays: set<Day>) returns (r: Day)
    requires d < t && Trading(t, holidays)
    ensures IsNext(d, r, holidays)
    decreases t - d
  {
    if Trading(d + 1, holidays) {
      r := d + 1;
    } else {
      r := LeastUpTo(d + 1, t, holidays);
    }
  }

  /** Every day has a least later trading day, and only one. */
  lemma NextExists(d: Day, holidays: set<Day>)
    ensures exists r :: IsNext(d, r, holidays)
    ensures forall r, s :: IsNext(d, r, holidays) && IsNext(d, s, holidays) ==> r == s
  {
    SomeLaterDayTrades(d, holidays);
    var t :| d < t && Trading(t, holidays);
    var r := LeastUpTo(d, t, holidays);
  }

  ghost function NextDay(d: Day, holidays: set<Day>): (r: Day)
    ensures IsNext(d, r, holidays)
  {
    NextExists(d, holidays);
    var r :| IsNext(d, r, holidays);
    r
  }

  /** The search loop ends for every finite set of holidays, at the least later trading day. */
  method NextTradingDay(d: Day, holidays: set<Day>) returns (cursor: Day)
    ensures IsNext(d, cursor, holidays) && cursor == NextDay(d, holidays)
    ensures (cursor - 1) % 7 < 5 && cursor !in holidays
    ensures forall x :: d < x < cursor ==> 5 <= (x - 1) % 7 || x in holidays
  {
    ghost var t := NextDay(d, holidays);
    cursor := d + 1;
    while Weekday(cursor) >= 5 || cursor in holidays
      invariant d < cursor <= t
      invariant forall x :: d < x < cursor ==> !Trading(x, holidays)
      decreases t - cursor
    {
      cursor := cursor + 1;
    }
    assert Trading(cursor, holidays) && cursor == t;
    forall x | d < x < cursor ensures 5 <= (x - 1) % 7 || x in holidays { assert !Trading(x, holidays); }
  }

  /** The trading days of a range, in order. */
  function TradingDays(start: Day, end: Day, holidays: set<Day>): seq<Day>
    decreases end - start + 1
  {
    if end < start then []
    else (if Trading(start, holidays) then [start] else []) + TradingDays(start + 1, end, holidays)
  }

  /** Steps back to the most recent trading day, at most `lookback` steps. */
  function StepBack(day: Day, lookback: nat, ref: Day, holidays: set<Day>): Day
    decreases lookback
  {
    if lookback == 0 then ref
    else if Trading(day, holidays) then day
    else StepBack(day - 1, lookback - 1, ref, holidays)
  }

  function LastTradingDay(ref: Day, holidays: set<Day>): Day {
    StepBack(ref, 15, ref, holidays)
  }

  lemma {:induction false} StepBackIsNotLater(day: Day, lookback: nat, ref: Day, holidays: set<Day>)
    requires day <= ref
    ensures StepBack(day, lookback, ref, holidays) <= ref
    decreases lookback
  {
    if 0 < lookback && !Trading(day, holidays) { StepBackIsNotLater(day - 1, lookback - 1, ref, holidays); }
  }

  /** What a collect run over a range fetches: its trading days or, if there are none, the last
      trading day on or before its end. */
  function DaysToFetch(start: Day, end: Day, holidays: set<Day>): seq<Day> {
    var days := TradingDays(start, end, holidays);
    if days == [] then [LastTradingDay(end, holidays)] else days
  }

  method StepBackFrom(day: Day, lookback: nat, ref: Day, holidays: set<Day>) returns (last: Day)
    ensures last == StepBack(day, lookback, ref, holidays)
  {
    last := day;
    for k := 0 to lookback
      invariant StepBack(last, lookback - k, ref, holidays) == StepBack(day, lookback, ref, holidays)
    {
      if Weekday(last) < 5 && last !in holidays {
        return;
      }
      last := last - 1;
    }
    last := ref;
  }

  /** The latest trading day of the last fifteen days, or else the reference day itself. */
  ghost predicate IsLastOf15(ref: Day, last: Day, holidays: set<Day>) {
    && ref - 15 < last <= ref
    && (Trading(last, holidays) || last == ref)
    && forall x :: ref - 15 < x <= ref && Trading(x, holidays) ==> x <= last && Trading(last, holidays)
  }

  lemma {:induction false} StepBackIsLast(day: Day, lookback: nat, ref: Day, holidays: set<Day>)
    requires day <= ref && forall x :: day < x <= ref ==> !Trading(x, holidays)
    ensures var last := StepBack(day, lookback, ref, holidays);
            && (last == ref || day - lookback < last <= day)
            && (Trading(last, holidays) || last == ref)
            && forall x :: day - lookback < x <= ref && Trading(x, holidays) ==> x <= last && Trading(last, holidays)
    decreases lookback
  {
    if 0 < lookback && !Trading(day, holidays) { StepBackIsLast(day - 1, lookback - 1, ref, holidays); }
  }

  method FindLastTradingDay(ref: Day, holidays: set<Day>) returns (last: Day)
    ensures last == LastTradingDay(ref, holidays)
    ensures IsLastOf15(ref, last, holidays)
  {
    StepBackIsLast(ref, 15, ref, holidays);
    last := StepBackFrom(ref, 15, ref, holidays);
  }

  method ListTradingDays(start: Day, end: Day, holidays: set<Day>) returns (days: seq<Day>)
    ensures days == TradingDays(start, end, holidays)
  {
    ghost var all := TradingDays(start, end, holidays);
    days := [];
    var day := start;
    while day <= end
      invariant days + TradingDays(day, end, holidays) == all
      decreases end - day + 1
    {
      ghost var rest := TradingDays(day + 1, end, holidays);
      if Weekday(day) < 5 && day !in holidays {
        JoinOne(days, day, rest);
        days := days + [day];
      } else {
        assert TradingDays(day, end, holidays) == rest;
      }
      day := day + 1;
    }
  }

  lemma {:induction false} DaysAreTheTradingDays(start: Day, end: Day, holidays: set<Day>)
    ensures var days := TradingDays(start, end, holidays);
            && (forall d :: d in days <==> start <= d <= end && Trading(d, holidays))
            && forall i, j :: 0 <= i < j < |days| ==> days[i] < days[j]
  {
    var days := TradingDays(start, end, holidays);
    forall d ensures d in days <==> start <= d <= end && Trading(d, holidays) {
      if d in days {
        var i :| 0 <= i < |days| && days[i] == d;
        TradingDayInRange(start, end, holidays, i);
      }
      if start <= d <= end && Trading(d, holidays) { TradingDayIsListed(start, end, holidays, d); }
    }
    forall i, j | 0 <= i < j < |days| ensures days[i] < days[j] { TradingDaysAreExact(start, end, holidays, i, j); }
  }

  method TradingDaysInRange(start: Day, end: Day, holidays: set<Day>) returns (days: seq<Day>)
    ensures days == DaysToFetch(start, end, holidays)
    ensures if exists d :: start <= d <= end && Trading(d, holidays) then
              && (forall d :: d in days <==> start <= d <= end && Trading(d, holidays))
              && forall i, j :: 0 <= i < j < |days| ==> days[i] < days[j]
            else |days| == 1 && IsLastOf15(end, days[0], holidays)
  {
    days := ListTradingDays(start, end, holidays);
    DaysAreTheTradingDays(start, end, holidays);
    if days == [] {
      var last := FindLastTradingDay(end, holidays);
      days := [last];
    } else {
      assert days[0] in TradingDays(start, end, holidays);
    }
  }

  /** Exactly the trading days of the range, each after the one before. */
  lemma {:induction false} TradingDaysAreExact(start: Day, end: Day, holidays: set<Day>, i: nat, j: nat)
    requires i < j < |TradingDays(start, end, holidays)|
    ensures TradingDays(start, end, holidays)[i] < TradingDays(start, end, holidays)[j]
    decreases end - start + 1
  {
    var later := TradingDays(start + 1, end, holidays);
    if Trading(start, holidays) {
      assert TradingDays(start, end, holidays) == [start] + later;
      if 0 < i {
        TradingDaysAreExact(start + 1, end, holidays, i - 1, j - 1);
      } else {
        TradingDayInRange(start + 1, end, holidays, j - 1);
      }
    } else {
      TradingDaysAreExact(start + 1, end, holidays, i, j);
    }
  }

  lemma {:induction false} TradingDayInRange(start: Day, end: Day, holidays: set<Day>, i: nat)
    requires i < |TradingDays(start, end, holidays)|
    ensures start <= TradingDays(start, end, holidays)[i] <= end
    ensures Trading(TradingDays(start, end, holidays)[i], holidays)
    decreases end - start + 1
  {
    if Trading(start, holidays) {
      if 0 < i { TradingDayInRange(start + 1, end, holidays, i - 1); }
    } else {
      TradingDayInRange(start + 1, end, holidays, i);
    }
  }

  lemma {:induction false} TradingDayIsListed(start: Day, end: Day, holidays: set<Day>, d: Day)
    requires start <= d <= end && Trading(d, holidays)
    ensures d in TradingDays(start, end, holidays)
    decreases end - start + 1
  {
    if start < d { TradingDayIsListed(start + 1, end, holidays, d); }
  }

  /** Skipping days that do not trade changes nothing. */
  lemma {:induction false} SkipQuietDays(start: Day, later: Day, end: Day, holidays: set<Day>)
    requires start <= later && forall x :: start <= x < later ==> !Trading(x, holidays)
    ensures TradingDays(start, end, holidays) == TradingDays(later, end, holidays)
    decreases later - start
  {
    if start < later { SkipQuietDays(start + 1, later, end, holidays); }
  }

  /** The days after the first m are the trading days after day m - 1. */
  lemma {:induction false} DaysAfter(start: Day, end: Day, holidays: set<Day>, m: nat)
    requires 1 <= m <= |TradingDays(start, end, holidays)|
    ensures var days := TradingDays(start, end, holidays);
            days[m..] == TradingDays(days[m - 1] + 1, end, holidays)
    decreases end - start + 1
  {
    var later := TradingDays(start + 1, end, holidays);
    if !Trading(start, holidays) {
      DaysAfter(start + 1, end, holidays, m);
    } else {
      DropCons(start, later, m);
      if 1 < m { DaysAfter(start + 1, end, holidays, m - 1); } else { assert later[0..] == later; }
    }
  }

  /** The days from the m-th on are the trading days from that day on. */
  lemma {:induction false} DaysFrom(start: Day, end: Day, holidays: set<Day>, m: nat)
    requires m < |TradingDays(start, end, holidays)|
    ensures var days := TradingDays(start, end, holidays);
            days[m..] == TradingDays(days[m], end, holidays)
    decreases end - start + 1
  {
    var later := TradingDays(start + 1, end, holidays);
    if !Trading(start, holidays) {
      DaysFrom(start + 1, end, holidays, m);
    } else if 0 < m {
      DaysFrom(start + 1, end, holidays, m - 1);
      DropCons(start, later, m);
    } else {
      assert ([start] + later)[0..] == [start] + later;
    }
  }

  lemma {:induction false} DaysSplit(start: Day, mid: Day, end: Day, holidays: set<Day>)
    requires start <= mid + 1 && mid <= end
    ensures TradingDays(start, end, holidays) == TradingDays(start, mid, holidays) + TradingDays(mid + 1, end, holidays)
    decreases mid - start + 1
  {
    if start <= mid { DaysSplit(start + 1, mid, end, holidays); }
  }

  lemma {:induction false} StretchOrdered(start: Day, end: Day, holidays: set<Day>, i: nat, j: nat)
    requires i < j <= |TradingDays(start, end, holidays)|
    ensures TradingDays(start, end, holidays)[i] <= TradingDays(start, end, holidays)[j - 1] <= end
  {
    TradingDayInRange(start, end, holidays, j - 1);
    if i < j - 1 { TradingDaysAreExact(start, end, holidays, i, j - 1); }
  }

  /** Any stretch of a range's days is all trading days from its first to its last one. */
  lemma {:induction false} StretchIsItsRange(start: Day, end: Day, holidays: set<Day>, i: nat, j: nat)
    requires i < j <= |TradingDays(start, end, holidays)|
    ensures var days := TradingDays(start, end, holidays);
            TradingDays(days[i], days[j - 1], holidays) == days[i..j]
  {
    var days := TradingDays(start, end, holidays);
    StretchOrdered(start, end, holidays, i, j);
    DaysFrom(start, end, holidays, i);
    DaysAfter(start, end, holidays, j);
    DaysSplit(days[i], days[j - 1], end, holidays);
    MiddleOf(days, i, j, TradingDays(days[i], days[j - 1], holidays));
  }

  lemma {:induction false} StepBackFinds(day: Day, lookback: nat, ref: Day, holidays: set<Day>)
    ensures Trading(StepBack(day, lookback, ref, holidays), holidays) || StepBack(day, lookback, ref, holidays) == ref
    decreases lookback
  {
    if 0 < lookback && !Trading(day, holidays) { StepBackFinds(day - 1, lookback - 1, ref, holidays); }
  }

  /** A stretch of a planned list, handed on as its first and last day only, is derived again as
      the same stretch. */
  lemma {:induction false} StretchIsDerivedAgain(start: Day, end: Day, holidays: set<Day>, i: nat, j: nat)
    requires i < j <= |DaysToFetch(start, end, holidays)|
    ensures var days := DaysToFetch(start, end, holidays);
            DaysToFetch(days[i], days[j - 1], holidays) == days[i..j]
  {
    var days := DaysToFetch(start, end, holidays);
    if TradingDays(start, end, holidays) != [] {
      StretchIsItsRange(start, end, holidays, i, j);
    } else {
      var d := LastTradingDay(end, holidays);
      StepBackFinds(end, 15, end, holidays);
      assert days[0..1] == [d];
      assert TradingDays(d, d, holidays) == if Trading(d, holidays) then [d] else [] by {
        assert TradingDays(d + 1, d, holidays) == [];
      }
    }
  }

  const LOOKBACK: nat := 366

  /** Steps back from a day, at most `steps` days, to a trading day. */
  function NearestWithin(day: Day, steps: nat, holidays: set<Day>): (r: Option<Day>)
    ensures r.Some? ==>
      day - steps < r.value <= day && Trading(r.value, holidays) && forall x :: r.value < x <= day ==>
          !Trading(x, holidays)
    ensures r.None? ==> forall x :: day - steps < x <= day ==> !Trading(x, holidays)
    decreases steps
  {
    if steps == 0 then None
    else if Trading(day, holidays) then Some(day)
    else NearestWithin(day - 1, steps - 1, holidays)
  }

  /** The latest trading day at or before a day, searched for a year. */
  function Nearest(day: Day, holidays: set<Day>): Option<Day> {
    NearestWithin(day, LOOKBACK, holidays)
  }

  method SearchBack(day: Day, steps: nat, holidays: set<Day>) returns (cursor: Option<Day>)
    ensures cursor == NearestWithin(day, steps, holidays)
  {
    var c := day;
    for k := 0 to steps
      invariant c == day - k && NearestWithin(c, steps - k, holidays) == NearestWithin(day, steps, holidays)
    {
      if Weekday(c) < 5 && c !in holidays {
        return Some(c);
      }
      c := c - 1;
    }
    cursor := None;
  }

  /** The search finds the latest trading day, and fails exactly when none of the last 366 days
      trades. */
  method NearestTradingDay(day: Day, holidays: set<Day>) returns (cursor: Option<Day>)
    ensures cursor == Nearest(day, holidays)
    ensures cursor.Some? ==> cursor.value <= day && Trading(cursor.value, holidays)
    ensures cursor.Some? ==> forall x :: cursor.value < x <= day ==> !Trading(x, holidays)
    ensures cursor.None? <==> forall x :: day - 366 < x <= day ==> !Trading(x, holidays)
  {
    cursor := SearchBack(day, LOOKBACK, holidays);
  }
}
