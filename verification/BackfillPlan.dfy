/** The span that a backfill still has to load. */
module BackfillPlan {
  import opened Options
  import opened Slices
  import opened TradingCalendar

  const RECENT_TAIL_DAYS := 21

  /** The dates of the table's rows, or nothing when the table has no date column. */
  type Column = Option<seq<Day>>

  /** SELECT MIN(col) ... WHERE col >= lo */
  function MinFrom(rows: seq<Day>, lo: Day): (r: Option<Day>)
    ensures r.Some? ==> r.value in rows && lo <= r.value && forall d :: d in rows && lo <= d ==> r.value <= d
    ensures r.None? ==> forall d :: d in rows ==> d < lo
  {
    if rows == [] then None
    else
      var rest := MinFrom(rows[1..], lo);
      assert forall d :: d in rows ==> d == rows[0] || d in rows[1..];
      if lo <= rows[0] && (rest.None? || rows[0] < rest.value) then Some(rows[0]) else rest
  }

  /** SELECT MAX(col) ... WHERE col >= lo AND col <= hi */
  function MaxBetween(rows: seq<Day>, lo: Day, hi: Day): (r: Option<Day>)
    ensures r.Some? ==> r.value in rows && lo <= r.value <= hi && forall d :: d in rows && lo <= d <= hi ==>
            d <= r.value
    ensures r.None? ==> forall d :: d in rows ==> !(lo <= d <= hi)
  {
    if rows == [] then None
    else
      var rest := MaxBetween(rows[1..], lo, hi);
      assert forall d :: d in rows ==> d == rows[0] || d in rows[1..];
      if lo <= rows[0] <= hi && (rest.None? || rest.value < rows[0]) then Some(rows[0]) else rest
  }

  /** The end of the historical segment: the day before the recent tail, if one is loaded. */
  function HistoryEnd(rows: seq<Day>, end: Day): Day {
    var recent := MinFrom(rows, end - RECENT_TAIL_DAYS);
    if recent.Some? then recent.value - 1 else end
  }

  /** Where the planned span starts: after the last loaded day of the historical segment. */
  ghost function SpanStart(rows: seq<Day>, globalStart: Day, end: Day, holidays: set<Day>): Day {
    var last := MaxBetween(rows, globalStart, HistoryEnd(rows, end));
    if last.Some? then NextDay(last.value, holidays) else globalStart
  }

  /** Read off the table alone: the span ends the day before the first loaded day of the last three
      weeks, so that no day of them before it is loaded and every later day has a loaded day of them
      on or before it; if none of their days is loaded, it ends at the end. */
  ghost predicate EndsBeforeTail(rows: seq<Day>, end: Day, spanEnd: Day) {
    && (forall r :: r in rows ==> !(end - 21 <= r <= spanEnd))
    && (forall d :: spanEnd < d <= end ==> TailReaches(rows, end, d))
    && (if exists r :: r in rows && end - 21 <= r then spanEnd + 1 in rows && end - 21 <= spanEnd + 1
        else spanEnd == end)
  }

  ghost predicate TailReaches(rows: seq<Day>, end: Day, d: Day) { exists r :: r in rows && end - 21 <= r <= d }

  /** And it starts the trading day after the last loaded day of the history before its end; if
      nothing of it is loaded, it starts where the history does. */
  ghost predicate StartsAfterHistory(rows: seq<Day>, globalStart: Day, spanStart: Day, spanEnd: Day,
      holidays: set<Day>) {
    if exists r :: r in rows && globalStart <= r <= spanEnd then
      exists r :: r in rows && globalStart <= r <= spanEnd && IsNext(r, spanStart, holidays)
        && forall x :: x in rows && x <= spanEnd ==> x <= r
    else spanStart == globalStart
  }

  method TradeDateBackfillSpan(col: Column, globalStart: Day, end: Day, holidays: set<Day>)
    returns (spanStart: Day, spanEnd: Day)
    ensures col.None? ==> spanStart == globalStart && spanEnd == end
    ensures col.Some? ==>
              spanStart == SpanStart(col.value, globalStart, end, holidays) && spanEnd == HistoryEnd(col.value, end)
    ensures col.Some? ==> forall d :: d in col.value ==> !(spanStart <= d <= spanEnd)
    ensures col.Some? ==> EndsBeforeTail(col.value, end, spanEnd)
    ensures col.Some? ==> StartsAfterHistory(col.value, globalStart, spanStart, spanEnd, holidays)
  {
    if col.None? {
      return globalStart, end;
    }
    var recentMin := MinFrom(col.value, end - RECENT_TAIL_DAYS);
    spanEnd := if recentMin.Some? then recentMin.value - 1 else end;
    var histMax := MaxBetween(col.value, globalStart, spanEnd);
    if histMax.Some? {
      spanStart := NextTradingDay(histMax.value, holidays);
    } else {
      spanStart := globalStart;
    }
    SpanAvoidsLoadedDays(col.value, globalStart, end, holidays);
  }

  /** The planned span never contains a date that is already loaded. */
  lemma SpanAvoidsLoadedDays(rows: seq<Day>, globalStart: Day, end: Day, holidays: set<Day>)
    ensures globalStart <= SpanStart(rows, globalStart, end, holidays)
    ensures forall d :: d in rows ==> !(SpanStart(rows, globalStart, end, holidays) <= d <= HistoryEnd(rows, end))
  {
  }

  /** The days that a run is planned to fetch: none when the span is empty. */
  ghost function Planned(rows: seq<Day>, globalStart: Day, end: Day, holidays: set<Day>): seq<Day> {
    var s, e := SpanStart(rows, globalStart, end, holidays), HistoryEnd(rows, end);
    if e < s then [] else DaysToFetch(s, e, holidays)
  }

  /** The trading days of the planned span. */
  ghost function SpanDays(rows: seq<Day>, globalStart: Day, end: Day, holidays: set<Day>): seq<Day> {
    TradingDays(SpanStart(rows, globalStart, end, holidays), HistoryEnd(rows, end), holidays)
  }

  lemma {:induction false} MinFromIgnores(rows: seq<Day>, more: seq<Day>, lo: Day)
    requires forall d :: d in more ==> d < lo
    ensures MinFrom(rows + more, lo) == MinFrom(rows, lo)
  {
    var a, b := MinFrom(rows + more, lo), MinFrom(rows, lo);
    if a.Some? { assert a.value in rows; }
    if b.Some? { assert b.value in rows + more; }
  }

  lemma {:induction false} FetchedUpToLast(start: Day, end: Day, holidays: set<Day>, m: nat)
    requires 1 <= m <= |TradingDays(start, end, holidays)|
    ensures var days := TradingDays(start, end, holidays);
            && days[m - 1] in days[..m] && days[m - 1] <= end
            && forall d :: d in days[..m] ==> start <= d <= days[m - 1]
  {
    var days := TradingDays(start, end, holidays);
    assert days[..m][m - 1] == days[m - 1];
    TradingDayInRange(start, end, holidays, m - 1);
    forall d | d in days[..m] ensures start <= d <= days[m - 1] {
      var i :| 0 <= i < m && days[i] == d;
      TradingDayInRange(start, end, holidays, i);
      if i < m - 1 { TradingDaysAreExact(start, end, holidays, i, m - 1); }
    }
  }

  lemma {:induction false} MaxIsLastFetched(rows: seq<Day>, more: seq<Day>, lo: Day, hi: Day, last: Day)
    requires last in more && lo <= last <= hi && forall d :: d in more ==> d <= last
    requires forall d :: d in rows && lo <= d <= hi ==> d < last
    ensures MaxBetween(rows + more, lo, hi) == Some(last)
  {
    var found := MaxBetween(rows + more, lo, hi);
    assert last in rows + more;
    assert found.value in rows || found.value in more;
  }

  lemma {:induction false} DaysAfterNext(start: Day, end: Day, holidays: set<Day>, m: nat)
    requires 1 <= m <= |TradingDays(start, end, holidays)|
    ensures var days := TradingDays(start, end, holidays);
            var next := NextDay(days[m - 1], holidays);
            days[m..] == TradingDays(next, end, holidays) && (next <= end ==> next in days[m..])
  {
    var last := TradingDays(start, end, holidays)[m - 1];
    var next := NextDay(last, holidays);
    DaysAfter(start, end, holidays, m);
    SkipQuietDays(last + 1, next, end, holidays);
    if next <= end { TradingDayIsListed(next, end, holidays, next); }
  }

  /** An interruption before the recent tail: the next plan starts exactly where this run stopped
      and fetches exactly what is left, so fewer days than before. */
  lemma {:induction false} ReplanContinues(rows: seq<Day>, globalStart: Day, end: Day, holidays: set<Day>, m: nat)
    requires var days := SpanDays(rows, globalStart, end, holidays);
             1 <= m <= |days| && days[m - 1] < end - RECENT_TAIL_DAYS
    ensures var days := SpanDays(rows, globalStart, end, holidays);
            var loaded := rows + days[..m];
            && SpanDays(loaded, globalStart, end, holidays) == days[m..]
            && Planned(loaded, globalStart, end, holidays) == days[m..]
            && HistoryEnd(loaded, end) == HistoryEnd(rows, end)
  {
    var s, e := SpanStart(rows, globalStart, end, holidays), HistoryEnd(rows, end);
    var days := TradingDays(s, e, holidays);
    var loaded := rows + days[..m];
    FetchedUpToLast(s, e, holidays, m);
    LoadedBeforeSpan(rows, globalStart, end, holidays);
    MinFromIgnores(rows, days[..m], end - RECENT_TAIL_DAYS);
    MaxIsLastFetched(rows, days[..m], globalStart, e, days[m - 1]);
    DaysAfterNext(s, e, holidays, m);
    assert SpanStart(loaded, globalStart, end, holidays) == NextDay(days[m - 1], holidays);
  }

  lemma {:induction false} LoadedBeforeSpan(rows: seq<Day>, globalStart: Day, end: Day, holidays: set<Day>)
    ensures var s := SpanStart(rows, globalStart, end, holidays);
            globalStart <= s && forall d :: d in rows && globalStart <= d <= HistoryEnd(rows, end) ==> d < s
  {
    SpanAvoidsLoadedDays(rows, globalStart, end, holidays);
  }

  /** Exactly when it works: after an interruption with days left to load, the next plan fetches
      the rest if and only if the last loaded day lies before the recent tail. Otherwise the days
      just loaded are taken for that tail and the rest is never planned. */
  lemma {:induction false} ReplanContinuesExactlyBeforeTail(rows: seq<Day>, globalStart: Day, end: Day,
        holidays: set<Day>, m: nat)
    requires 1 <= m < |SpanDays(rows, globalStart, end, holidays)|
    ensures var days := SpanDays(rows, globalStart, end, holidays);
            Planned(rows + days[..m], globalStart, end, holidays) == days[m..] <==> days[m - 1] < end - RECENT_TAIL_DAYS
    ensures var days := SpanDays(rows, globalStart, end, holidays);
            end - RECENT_TAIL_DAYS <= days[m - 1] ==>
              forall d :: d in days[m..] ==> d !in Planned(rows + days[..m], globalStart, end, holidays)
  {
    var s, e := SpanStart(rows, globalStart, end, holidays), HistoryEnd(rows, end);
    var days := TradingDays(s, e, holidays);
    var loaded := rows + days[..m];
    if days[m - 1] < end - RECENT_TAIL_DAYS {
      ReplanContinues(rows, globalStart, end, holidays, m);
    } else {
      assert days[m - 1] in loaded by { assert days[..m][m - 1] == days[m - 1]; }
      var s', e' := SpanStart(loaded, globalStart, end, holidays), HistoryEnd(loaded, end);
      assert e' < days[m - 1];
      FetchedNotAfter(s', e', holidays);
      forall d | d in days[m..] ensures days[m - 1] < d {
        var i :| 0 <= i < |days[m..]| && days[m..][i] == d;
        TradingDaysAreExact(s, e, holidays, m - 1, m + i);
      }
      assert days[m] in days[m..] by { assert days[m..][0] == days[m]; }
    }
  }

  lemma {:induction false} FetchedNotAfter(start: Day, end: Day, holidays: set<Day>)
    ensures forall d :: d in DaysToFetch(start, end, holidays) ==> d <= end
  {
    var days := TradingDays(start, end, holidays);
    StepBackIsNotLater(end, 15, end, holidays);
    forall d | d in days ensures d <= end {
      var i :| 0 <= i < |days| && days[i] == d;
      TradingDayInRange(start, end, holidays, i);
    }
  }

  /** The smallest case: five weekdays to load, a stop after the first one, and nothing is planned
      any more although four days are missing. */
  lemma EarlyCompletion()
    ensures SpanDays([], 1, 5, {}) == [1, 2, 3, 4, 5]
    ensures Planned([] + [1], 1, 5, {}) == []
  {
    assert SpanStart([], 1, 5, {}) == 1 && HistoryEnd([], 5) == 5;
    assert TradingDays(5, 5, {}) == [5] by { assert TradingDays(6, 5, {}) == []; }
    assert TradingDays(3, 5, {}) == [3, 4, 5] by { assert TradingDays(4, 5, {}) == [4, 5]; }
    assert TradingDays(1, 5, {}) == [1, 2, 3, 4, 5] by { assert TradingDays(2, 5, {}) == [2, 3, 4, 5]; }
    assert [1][1..] == [] && [] + [1] == [1];
    assert MinFrom([1], -16) == Some(1);
  }

  // ----- Spans without a trading day -----

  /** The span is not empty, but none of its days trades. */
  ghost predicate QuietSpan(rows: seq<Day>, globalStart: Day, end: Day, holidays: set<Day>) {
    SpanStart(rows, globalStart, end, holidays) <= HistoryEnd(rows, end)
        && SpanDays(rows, globalStart, end, holidays) == []
  }

  /** A run plans exactly the trading days of its span, except exactly for a quiet span. */
  lemma PlannedIsSpanDaysExactly(rows: seq<Day>, globalStart: Day, end: Day, holidays: set<Day>)
    ensures Planned(rows, globalStart, end, holidays) == SpanDays(rows, globalStart, end, holidays) <==>
            !QuietSpan(rows, globalStart, end, holidays)
  {
  }

  /** A quiet span only comes from a global start after which nothing is loaded yet. */
  lemma {:induction false} QuietSpanStartsGlobally(rows: seq<Day>, globalStart: Day, end: Day, holidays: set<Day>)
    requires QuietSpan(rows, globalStart, end, holidays)
    ensures SpanStart(rows, globalStart, end, holidays) == globalStart
    ensures MaxBetween(rows, globalStart, HistoryEnd(rows, end)) == None
  {
    var e, last := HistoryEnd(rows, end), MaxBetween(rows, globalStart, HistoryEnd(rows, end));
    if last.Some? { TradingDayIsListed(NextDay(last.value, holidays), e, holidays, NextDay(last.value, holidays)); }
  }

  lemma {:induction false} MaxIgnoresEarlier(rows: seq<Day>, d: Day, lo: Day, hi: Day)
    requires MaxBetween(rows, lo, hi) == None && d < lo
    ensures MaxBetween(rows + [d], lo, hi) == None
  {
    var found := MaxBetween(rows + [d], lo, hi);
    assert forall x :: x in rows + [d] ==> x in rows || x == d;
  }

  lemma {:induction false} QuietSpanStays(rows: seq<Day>, globalStart: Day, end: Day, holidays: set<Day>, d: Day)
    requires QuietSpan(rows, globalStart, end, holidays) && d < globalStart && d < end - RECENT_TAIL_DAYS
    ensures HistoryEnd(rows + [d], end) == HistoryEnd(rows, end)
    ensures SpanStart(rows + [d], globalStart, end, holidays) == SpanStart(rows, globalStart, end, holidays)
  {
    QuietSpanStartsGlobally(rows, globalStart, end, holidays);
    MinFromIgnores(rows, [d], end - RECENT_TAIL_DAYS);
    MaxIgnoresEarlier(rows, d, globalStart, HistoryEnd(rows, end));
  }

  lemma {:induction false} TailDayEndsPlan(rows: seq<Day>, globalStart: Day, end: Day, holidays: set<Day>, d: Day)
    requires end - RECENT_TAIL_DAYS <= d < globalStart
    ensures Planned(rows + [d], globalStart, end, holidays) == []
  {
    assert d in rows + [d];
    LoadedBeforeSpan(rows + [d], globalStart, end, holidays);
  }

  /** For a quiet span a run fetches the last trading day before it. The next run fetches the same
      day once more, and so does every later one, if and only if that day lies before the recent
      tail; otherwise the day is taken for that tail and nothing is planned any more. */
  lemma QuietSpanRepeatsExactly(rows: seq<Day>, globalStart: Day, end: Day, holidays: set<Day>)
    requires QuietSpan(rows, globalStart, end, holidays)
    requires LastTradingDay(HistoryEnd(rows, end), holidays) < globalStart
    ensures var d := LastTradingDay(HistoryEnd(rows, end), holidays);
            && Planned(rows, globalStart, end, holidays) == [d]
            && (Planned(rows + [d], globalStart, end, holidays) == [d] <==> d < end - RECENT_TAIL_DAYS)
            && (end - RECENT_TAIL_DAYS <= d ==> Planned(rows + [d], globalStart, end, holidays) == [])
            && (d < end - RECENT_TAIL_DAYS ==> QuietSpan(rows + [d], globalStart, end, holidays))
  {
    var d := LastTradingDay(HistoryEnd(rows, end), holidays);
    if d < end - RECENT_TAIL_DAYS {
      QuietSpanStays(rows, globalStart, end, holidays, d);
    } else {
      TailDayEndsPlan(rows, globalStart, end, holidays, d);
    }
  }

  /** The smallest case: day 8 is loaded and the history starts on the weekend of the days 6 and 7.
      Every run fetches day 5, before the start of the history, once more. */
  lemma WeekendStartRepeats()
    ensures QuietSpan([8], 6, 27, {})
    ensures Planned([8], 6, 27, {}) == [5] && Planned([8] + [5], 6, 27, {}) == [5]
  {
    assert HistoryEnd([8], 27) == 7 && MaxBetween([8], 6, 7) == None;
    assert TradingDays(7, 7, {}) == [] by { assert TradingDays(8, 7, {}) == []; }
    assert TradingDays(6, 7, {}) == [];
    assert StepBack(5, 13, 7, {}) == 5;
    assert StepBack(6, 14, 7, {}) == 5;
    assert LastTradingDay(7, {}) == 5;
    QuietSpanRepeatsExactly([8], 6, 27, {});
  }

  // ----- Any number of interrupted runs -----

  /** Everything fetched by a series of runs with one fixed end date: run i is interrupted after
      at most stops[i] days, which are then in the table when the next run is planned. */
  ghost function Campaign(rows: seq<Day>, globalStart: Day, end: Day, holidays: set<Day>, stops: seq<nat>): seq<Day>
    decreases |stops|
  {
    if stops == [] then []
    else
      var planned := Planned(rows, globalStart, end, holidays);
      var fetched := planned[..Upto(stops[0], |planned|)];
      fetched + Campaign(rows + fetched, globalStart, end, holidays, stops[1..])
  }

  function Sum(stops: seq<nat>): nat {
    if stops == [] then 0 else stops[0] + Sum(stops[1..])
  }

  /** Every interruption leaves the last loaded day before the recent tail. */
  ghost predicate StopsBeforeTail(days: seq<Day>, cutoff: Day, stops: seq<nat>)
    decreases |stops|
  {
    |stops| <= 1 ||
      var m := Upto(stops[0], |days|);
      && (0 < m ==> days[m - 1] < cutoff)
      && StopsBeforeTail(days[m..], cutoff, stops[1..])
  }

  /** Then no trading day of the first plan is skipped or fetched twice, whatever the number and
      the size of the runs: together they fetch its days in order, as many as they had room for. */
  lemma {:induction false} CampaignSkipsNothing(rows: seq<Day>, globalStart: Day, end: Day, holidays: set<Day>,
        stops: seq<nat>)
    requires !QuietSpan(rows, globalStart, end, holidays)
    requires StopsBeforeTail(SpanDays(rows, globalStart, end, holidays), end - RECENT_TAIL_DAYS, stops)
    ensures var days := SpanDays(rows, globalStart, end, holidays);
            Campaign(rows, globalStart, end, holidays, stops) == days[..Upto(Sum(stops), |days|)]
    decreases |stops|
  {
    if stops != [] {
      var days := SpanDays(rows, globalStart, end, holidays);
      PlannedIsSpanDaysExactly(rows, globalStart, end, holidays);
      var m := Upto(stops[0], |days|);
      var rest := stops[1..];
      if rest == [] {
        assert Campaign(rows + days[..m], globalStart, end, holidays, rest) == [];
      } else {
        if m == 0 {
          assert rows + days[..m] == rows && days[m..] == days;
        } else {
          ReplanContinues(rows, globalStart, end, holidays, m);
          PlannedIsSpanDaysExactly(rows + days[..m], globalStart, end, holidays);
        }
        CampaignSkipsNothing(rows + days[..m], globalStart, end, holidays, rest);
        TakeMore(days, m, Upto(Sum(rest), |days[m..]|));
      }
    }
  }
}
