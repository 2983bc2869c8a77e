/** Running a wide query: at one date, and at several dates at once. */
module BrowserQuery {
  import opened Options
  import opened BrowserTables
  import opened BrowserRows
  import PeriodLoad
  import TradingCalendar

  const MAX_INDICATORS: nat := 40
  const MAX_UNIVERSE: nat := 8000

  datatype Selection = Selection(id: string, adjust: string)

  datatype Registration = Registration(ref: Indicator, available: bool)

  /** Every indicator is registered under its own id. */
  ghost predicate Keyed(registry: map<string, Registration>) {
    forall id :: id in registry ==> registry[id].ref.id == id
  }

  predicate Known(selections: seq<Selection>, registry: map<string, Registration>) {
    forall s :: s in selections ==> s.id in registry && registry[s.id].available
  }

  function PicksOf(selections: seq<Selection>, registry: map<string, Registration>): (picks: seq<Pick>)
    requires Known(selections, registry)
    ensures |picks| == |selections|
    ensures forall i :: 0 <= i < |picks| ==> picks[i] == Pick(selections[i].adjust, registry[selections[i].id].ref)
  {
    seq(|selections|, i requires 0 <= i < |selections| => Pick(selections[i].adjust, registry[selections[i].id].ref))
  }

  lemma PicksAreRegistered(selections: seq<Selection>, registry: map<string, Registration>)
    requires Keyed(registry) && Known(selections, registry)
    ensures Registered(PicksOf(selections, registry))
  {
    var picks := PicksOf(selections, registry);
    forall i, j | 0 <= i < |picks| && 0 <= j < |picks| && picks[i].ref.id == picks[j].ref.id
        ensures picks[i].ref == picks[j].ref {
      assert selections[i] in selections && selections[j] in selections;
    }
  }

  function IndicatorError(selections: seq<Selection>, registry: map<string, Registration>): (error: Option<string>)
    ensures error.None? <==> |selections| <= MAX_INDICATORS && Known(selections, registry)
  {
    if MAX_INDICATORS < |selections| then Some("BROWSER_TOO_MANY_INDICATORS")
    else if !Known(selections, registry) then Some("BROWSER_INDICATOR_UNAVAILABLE")
    else None
  }

  function UniverseError(codes: seq<string>): (error: Option<string>)
    ensures error.None? <==> 0 < |codes| <= MAX_UNIVERSE
  {
    if codes == [] then Some("BROWSER_UNIVERSE_EMPTY")
    else if MAX_UNIVERSE < |codes| then Some("BROWSER_UNIVERSE_TOO_LARGE")
    else None
  }

  method ValidateIndicators(selections: seq<Selection>, registry: map<string, Registration>)
    returns (picks: seq<Pick>, error: Option<string>)
    ensures error == IndicatorError(selections, registry)
    ensures error.None? ==> picks == PicksOf(selections, registry)
  {
    picks := [];
    if MAX_INDICATORS < |selections| {
      return picks, Some("BROWSER_TOO_MANY_INDICATORS");
    }
    for i := 0 to |selections|
      invariant forall k :: 0 <= k < i ==> selections[k].id in registry && registry[selections[k].id].available
      invariant |picks| == i
      invariant forall k :: 0 <= k < i ==> picks[k] == Pick(selections[k].adjust, registry[selections[k].id].ref)
    {
      var sel := selections[i];
      if sel.id !in registry || !registry[sel.id].available {
        return picks, Some("BROWSER_INDICATOR_UNAVAILABLE");
      }
      picks := picks + [Pick(sel.adjust, registry[sel.id].ref)];
    }
    error := None;
  }

  // ----- The date that is shown -----

  predicate HasRows(table: Table, date: int) { exists r :: r in table && r.date == date }

  function LatestUpTo(table: Table, date: int, n: nat): (latest: Option<int>)
    requires n <= |table|
    ensures latest.Some? ==> latest.value <= date && exists i :: 0 <= i < n && table[i].date == latest.value
    ensures latest.Some? ==> forall i :: 0 <= i < n && table[i].date <= date ==> table[i].date <= latest.value
    ensures latest.None? ==> forall i :: 0 <= i < n ==> date < table[i].date
  {
    if n == 0 then None
    else
      var before := LatestUpTo(table, date, n - 1);
      if table[n - 1].date <= date && (before.None? || before.value < table[n - 1].date) then Some(table[n - 1].date)
          else before
  }

  /** A date without rows falls back to the latest one before it that has rows. */
  function Resolve(table: Table, requested: int): int {
    if HasRows(table, requested) then requested else LatestUpTo(table, requested, |table|).GetOr(requested)
  }

  /** The requested date is shown if and only if the table has rows on it, or none up to it. */
  lemma ResolveKeepsExactly(table: Table, requested: int)
    ensures Resolve(table, requested) == requested <==>
            HasRows(table, requested) || forall r :: r in table ==> requested < r.date
    ensures Resolve(table, requested) != requested ==>
            Resolve(table, requested) < requested && HasRows(table, Resolve(table, requested))
            && forall r :: r in table && r.date <= requested ==> r.date <= Resolve(table, requested)
  {
    var latest := LatestUpTo(table, requested, |table|);
    if latest.Some? {
      var i :| 0 <= i < |table| && table[i].date == latest.value;
      assert table[i] in table;
    }
  }

  /** The date of a single-date query: that of the primary daily table, if there is a daily selection. */
  function EffectiveDate(db: Db, picks: seq<Pick>, primary: string, requested: int): int {
    if Types(picks, Daily) == {} || primary !in db.tables then requested else Resolve(db.tables[primary], requested)
  }

  /** The primary daily table: tushare_daily if it is used, else some used one. */
  ghost predicate Primary(picks: seq<Pick>, primary: string) {
    var types := Types(picks, Daily);
    types != {} ==> primary in types && ("tushare_daily" in types ==> primary == "tushare_daily")
  }

  method ChoosePrimary(picks: seq<Pick>) returns (primary: string)
    ensures Primary(picks, primary)
  {
    var types := Types(picks, Daily);
    if types == {} || "tushare_daily" in types {
      return "tushare_daily";
    }
    primary :| primary in types;
  }

  // ----- Loading -----

  function DailyTables(db: Db, types: set<string>, codes: seq<string>, date: int): map<string, Loaded<int>> {
    map dt | dt in types && dt in db.tables :: DailyAt(db, dt, codes, date)
  }

  function StaticTables(db: Db, types: set<string>, codes: seq<string>): map<string, Loaded<int>> {
    map dt | dt in types && dt in db.tables :: StaticOf(db, dt, codes)
  }

  function Reports(db: Db, types: set<string>, codes: seq<string>, asOf: PeriodLoad.Date,
        unified: Option<PeriodLoad.Date>):
    map<string, Loaded<PeriodLoad.Date>>
  {
    map dt | dt in types && dt in db.reports ::
        PeriodLoad.PeriodOf(db.reports[dt], PeriodLoad.UpTo(asOf, unified), codes)
  }

  method LoadDailyTables(db: Db, types: set<string>, codes: seq<string>, date: int)
        returns (cache: map<string, Loaded<int>>)
    ensures cache == DailyTables(db, types, codes, date)
  {
    cache := map[];
    var rest := types;
    while rest != {}
      invariant rest <= types && cache == DailyTables(db, types - rest, codes, date)
      decreases |rest|
    {
      var dt :| dt in rest;
      if dt in db.tables {
        var loaded := Load(db.tables[dt], On(date), codes);
        cache := cache[dt := loaded];
      }
      rest := rest - {dt};
    }
    assert types - {} == types;
  }

  method LoadStaticTables(db: Db, types: set<string>, codes: seq<string>) returns (cache: map<string, Loaded<int>>)
    ensures cache == StaticTables(db, types, codes)
  {
    cache := map[];
    var rest := types;
    while rest != {}
      invariant rest <= types && cache == StaticTables(db, types - rest, codes)
      decreases |rest|
    {
      var dt :| dt in rest;
      if dt in db.tables {
        var loaded := Load(db.tables[dt], All(), codes);
        cache := cache[dt := loaded];
      }
      rest := rest - {dt};
    }
    assert types - {} == types;
  }

  method LoadReports(db: Db, types: set<string>, codes: seq<string>, asOf: PeriodLoad.Date,
        unified: Option<PeriodLoad.Date>)
    returns (cache: map<string, Loaded<PeriodLoad.Date>>)
    ensures cache == Reports(db, types, codes, asOf, unified)
  {
    cache := map[];
    var rest := types;
    while rest != {}
      invariant rest <= types && cache == Reports(db, types - rest, codes, asOf, unified)
      decreases |rest|
    {
      var dt :| dt in rest;
      if dt in db.reports {
        var loaded := PeriodLoad.LoadPeriod(db.reports[dt], codes, asOf, unified);
        cache := cache[dt := loaded];
      }
      rest := rest - {dt};
    }
    assert types - {} == types;
  }

  method LoadAdj(db: Db, picks: seq<Pick>, codes: seq<string>, date: int) returns (factors: Factors)
    ensures factors == FactorsAt(db, picks, codes, date)
  {
    factors := Factors(map[], map[]);
    if NeedsAdj(picks) && db.adj.Some? {
      var onDate := Load(db.adj.value, FactorOn(date), codes);
      var latest := Load(db.adj.value, LatestFactor(db.adj.value), codes);
      factors := Factors(onDate, latest);
    }
  }

  // ----- One date -----

  function Of<D>(cache: map<string, Loaded<D>>, dt: string): Loaded<D> { if dt in cache then cache[dt] else map[] }

  function CachedValue(pick: Pick, code: string, spine: Loaded<int>, daily: map<string, Loaded<int>>,
      periods: map<string, Loaded<PeriodLoad.Date>>, statics: map<string, Loaded<int>>, factors: Factors): Value
  {
    match pick.ref.freq
    case Static => StaticValue(pick, code, spine, Of(statics, pick.ref.dataType))
    case Daily => DailyValue(pick, code, Of(daily, pick.ref.dataType), factors)
    case Period => Cell(Of(periods, pick.ref.dataType), code, pick.ref.columnKey)
  }

  /** What was loaded for the selections holds what the tables hold. */
  lemma {:induction false} CachesAreTables(db: Db, picks: seq<Pick>, codes: seq<string>, pick: Pick, code: string,
        date: int, periods: map<string, Loaded<PeriodLoad.Date>>)
    requires pick in picks
    ensures CachedValue(pick, code, LoadedOf(db.spine, All(), codes),
            DailyTables(db, Types(picks, Daily), codes, date), periods,
                        StaticTables(db, Types(picks, Static) - {SPINE}, codes), FactorsAt(db, picks, codes, date)) ==
            ValueAt(db, picks, codes, pick, code, date, periods)
  {
    assert pick.ref.dataType in Types(picks, pick.ref.freq);
  }

  /** The rows of a single-date query, cell by cell. */
  method AssembleRows(db: Db, codes: seq<string>, picks: seq<Pick>, date: int, spine: Loaded<int>,
        daily: map<string, Loaded<int>>,
      periods: map<string, Loaded<PeriodLoad.Date>>, statics: map<string, Loaded<int>>, factors: Factors)
          returns (rows: seq<Row>)
    requires spine == LoadedOf(db.spine, All(), codes)
    requires daily == DailyTables(db, Types(picks, Daily), codes, date)
    requires statics == StaticTables(db, Types(picks, Static) - {SPINE}, codes)
    requires factors == FactorsAt(db, picks, codes, date)
    ensures |rows| == |codes|
    ensures forall k :: 0 <= k < |codes| ==> rows[k] == SingleRow(db, picks, codes, codes[k], date, periods)
  {
    rows := [];
    for k := 0 to |codes|
      invariant |rows| == k
      invariant forall j :: 0 <= j < k ==> rows[j] == SingleRow(db, picks, codes, codes[j], date, periods)
    {
      var row := FillRow(picks, BaseRow(codes[k], spine), codes[k], spine, daily, periods, statics, factors,
        SingleWrites(db, picks, codes, codes[k], date, periods)) by {
        forall i | 0 <= i < |picks| ensures
            SingleWrites(db, picks, codes, codes[k], date, periods)[i] ==
            (Base(picks[i].ref.id), CachedValue(picks[i], codes[k], spine, daily, periods, statics, factors)) {
          CachesAreTables(db, picks, codes, picks[i], codes[k], date, periods);
        }
      }
      rows := rows + [row];
    }
  }

  method FillRow(picks: seq<Pick>, start: Row, code: string, spine: Loaded<int>, daily: map<string, Loaded<int>>,
      periods: map<string, Loaded<PeriodLoad.Date>>, statics: map<string, Loaded<int>>, factors: Factors,
      ghost writes: seq<(Column, Value)>) returns (row: Row)
    requires |writes| == |picks|
    requires forall i :: 0 <= i < |picks| ==>
               writes[i] == (Base(picks[i].ref.id),
                   CachedValue(picks[i], code, spine, daily, periods, statics, factors))
    ensures row == Put(start, writes, |writes|)
  {
    row := start;
    for i := 0 to |picks|
      invariant row == Put(start, writes, i)
    {
      row := row[Base(picks[i].ref.id) := CachedValue(picks[i], code, spine, daily, periods, statics, factors)];
    }
  }

  datatype Answer = Rows(rows: seq<Row>, effective: seq<int>) | Refused(code: string)

  /** The trading days that are shown for the asked dates: each one's latest trading day, if the
      search finds it for all of them. */
  function EffectiveDates(dates: seq<int>, holidays: set<int>): (effective: Option<seq<int>>)
    ensures effective.Some? <==> forall i :: 0 <= i < |dates| ==> TradingCalendar.Nearest(dates[i], holidays).Some?
    ensures effective.Some? ==> |effective.value| == |dates|
    ensures effective.Some? ==>
      forall i :: 0 <= i < |dates| ==> TradingCalendar.Nearest(dates[i], holidays) == Some(effective.value[i])
  {
    if forall i :: 0 <= i < |dates| ==> TradingCalendar.Nearest(dates[i], holidays).Some? then
      Some(seq(|dates|, i requires 0 <= i < |dates| => TradingCalendar.Nearest(dates[i], holidays).GetOr(0)))
    else None
  }

  method NearestDates(dates: seq<int>, holidays: set<int>) returns (effective: Option<seq<int>>)
    ensures effective == EffectiveDates(dates, holidays)
  {
    var found: seq<int> := [];
    for i := 0 to |dates|
      invariant |found| == i
      invariant forall j :: 0 <= j < i ==> TradingCalendar.Nearest(dates[j], holidays) == Some(found[j])
    {
      var day := TradingCalendar.NearestTradingDay(dates[i], holidays);
      if day.None? {
        return None;
      }
      found := found + [day.value];
    }
    var all := EffectiveDates(dates, holidays);
    assert found == all.value;
    effective := Some(found);
  }

  /** The first check that fails decides the error; the multi-date form also refuses period
      indicators, before it looks at the universe. */
  function Refusal(db: Db, selections: seq<Selection>, registry: map<string, Registration>, codes: seq<string>,
      dates: seq<int>, holidays: set<int>, multi: bool): Option<string>
  {
    if IndicatorError(selections, registry).Some? then IndicatorError(selections, registry)
    else if multi && Types(PicksOf(selections, registry), Period) != {} then Some("BROWSER_MULTI_DATE_PERIOD")
    else if UniverseError(codes).Some? then UniverseError(codes)
    else if EffectiveDates(dates, holidays).None? then Some("ValueError")
    else if !db.spineActive then Some("BROWSER_INDICATOR_UNAVAILABLE")
    else None
  }

  /** Every selection is registered and available; with several dates none of them is of a period. */
  ghost predicate Selectable(selections: seq<Selection>, registry: map<string, Registration>, multi: bool) {
    forall s :: s in selections ==>
      s.id in registry && registry[s.id].available && (multi ==> registry[s.id].ref.freq != Period)
  }

  /** A day of the year up to the date trades. */
  ghost predicate TradesWithinYear(date: int, holidays: set<int>) {
    exists x :: date - 366 < x <= date && TradingCalendar.Trading(x, holidays)
  }

  lemma {:induction false} NearestExactly(date: int, holidays: set<int>)
    ensures TradingCalendar.Nearest(date, holidays).Some? <==> TradesWithinYear(date, holidays)
  {
  }

  lemma {:induction false} PeriodsSelected(selections: seq<Selection>, registry: map<string, Registration>)
    requires Known(selections, registry)
    ensures Types(PicksOf(selections, registry), Period) != {} <==>
            exists s :: s in selections && registry[s.id].ref.freq == Period
  {
    var picks := PicksOf(selections, registry);
    if s :| s in selections && registry[s.id].ref.freq == Period {
      var i :| 0 <= i < |selections| && selections[i] == s;
      assert picks[i] in picks && picks[i].ref.dataType in Types(picks, Period);
    }
    if dt :| dt in Types(picks, Period) {
      var p :| p in picks && p.ref.freq == Period && p.ref.dataType == dt;
      var i :| 0 <= i < |picks| && picks[i] == p;
      assert selections[i] in selections;
    }
  }

  /** A query is refused unless all of this holds, with the error of the first condition that fails:
      at most 40 selections; all of them registered and available, and none of a period when there
      are several dates; between one and 8000 codes; a trading day within a year of every date; and
      an active list of stocks. */
  lemma RefusedExactly(db: Db, selections: seq<Selection>, registry: map<string, Registration>, codes: seq<string>,
      dates: seq<int>, holidays: set<int>, multi: bool)
    ensures var dated := forall i :: 0 <= i < |dates| ==> TradesWithinYear(dates[i], holidays);
            Refusal(db, selections, registry, codes, dates, holidays, multi) ==
            if 40 < |selections| then Some("BROWSER_TOO_MANY_INDICATORS")
            else if !Selectable(selections, registry, false) then Some("BROWSER_INDICATOR_UNAVAILABLE")
            else if !Selectable(selections, registry, multi) then Some("BROWSER_MULTI_DATE_PERIOD")
            else if |codes| == 0 then Some("BROWSER_UNIVERSE_EMPTY")
            else if 8000 < |codes| then Some("BROWSER_UNIVERSE_TOO_LARGE")
            else if !dated then Some("ValueError")
            else if !db.spineActive then Some("BROWSER_INDICATOR_UNAVAILABLE")
            else None
  {
    if Known(selections, registry) { PeriodsSelected(selections, registry); }
    forall i | 0 <= i < |dates|
      ensures TradingCalendar.Nearest(dates[i], holidays).Some? <==> TradesWithinYear(dates[i], holidays) {
      NearestExactly(dates[i], holidays);
    }
  }

  /** The reports of a query are point-in-time reports. */
  lemma {:induction false} ReportsArePointInTime(db: Db, types: set<string>, codes: seq<string>,
      asOf: PeriodLoad.Date, unified: Option<PeriodLoad.Date>, dt: string)
    ensures var periods := Reports(db, types, codes, asOf, unified);
            && (dt in periods <==> dt in types && dt in db.reports)
            && (dt in periods ==> PeriodLoad.PointInTime(periods[dt], db.reports[dt], codes, asOf, unified))
  {
    if dt in types && dt in db.reports { PeriodLoad.PeriodIsPointInTime(db.reports[dt], codes, asOf, unified); }
  }

  /** The single-date query. */
  method ExecuteSingle(db: Db, selections: seq<Selection>, registry: map<string, Registration>, codes: seq<string>,
        asOf: int,
      holidays: set<int>, reportDate: PeriodLoad.Date, unified: Option<PeriodLoad.Date>)
          returns (answer: Answer, primary: string)
    ensures var refusal := Refusal(db, selections, registry, codes, [asOf], holidays, false);
            if refusal.Some? then answer == Refused(refusal.value) else answer.Rows?
    ensures answer.Rows? ==>
              var picks := PicksOf(selections, registry);
              var date := EffectiveDate(db, picks, primary, TradingCalendar.Nearest(asOf, holidays).GetOr(0));
              var periods := Reports(db, Types(picks, Period), codes, reportDate, unified);
              && Primary(picks, primary) && answer.effective == [date]
              && (Types(picks, Daily) == {} ==> TradingCalendar.Nearest(asOf, holidays) == Some(date))
              && |answer.rows| == |codes|
              && forall k :: 0 <= k < |codes| ==> answer.rows[k] == SingleRow(db, picks, codes, codes[k], date, periods)
  {
    primary := "";
    var picks, error := ValidateIndicators(selections, registry);
    if error.Some? {
      return Refused(error.value), primary;
    }
    error := UniverseError(codes);
    if error.Some? {
      return Refused(error.value), primary;
    }
    var nearest := NearestDates([asOf], holidays);
    if nearest.None? {
      return Refused("ValueError"), primary;
    }
    primary := ChoosePrimary(picks);
    var date := EffectiveDate(db, picks, primary, nearest.value[0]);
    if !db.spineActive {
      return Refused("BROWSER_INDICATOR_UNAVAILABLE"), primary;
    }
    var spine := Load(db.spine, All(), codes);
    var daily := LoadDailyTables(db, Types(picks, Daily), codes, date);
    var periods := LoadReports(db, Types(picks, Period), codes, reportDate, unified);
    var factors := LoadAdj(db, picks, codes, date);
    var statics := LoadStaticTables(db, Types(picks, Static) - {SPINE}, codes);
    var rows := AssembleRows(db, codes, picks, date, spine, daily, periods, statics, factors);
    answer := Rows(rows, [date]);
  }

  // ----- Several dates -----

  /** The daily tables of every date, and the factors of every date. */
  ghost predicate Cached(db: Db, picks: seq<Pick>, codes: seq<string>, dates: seq<int>,
      daily: map<int, map<string, Loaded<int>>>, factors: map<int, Factors>)
  {
    forall d :: d in dates ==>
      && d in daily && daily[d] == DailyTables(db, Types(picks, Daily), codes, d)
      && d in factors && factors[d] == FactorsAt(db, picks, codes, d)
  }

  method LoadDates(db: Db, picks: seq<Pick>, codes: seq<string>, dates: seq<int>)
    returns (daily: map<int, map<string, Loaded<int>>>, factors: map<int, Factors>)
    ensures Cached(db, picks, codes, dates, daily, factors)
  {
    daily, factors := map[], map[];
    for i := 0 to |dates|
      invariant Cached(db, picks, codes, dates[..i], daily, factors)
    {
      var d := dates[i];
      var loaded := LoadDailyTables(db, Types(picks, Daily), codes, d);
      var f := LoadAdj(db, picks, codes, d);
      daily, factors := daily[d := loaded], factors[d := f];
      assert dates[..i + 1] == dates[..i] + [d];
    }
    assert dates[..|dates|] == dates;
  }

  method ColumnSpecs(picks: seq<Pick>, dates: seq<int>) returns (specs: seq<Spec>)
    ensures specs == Specs(picks, |picks|, dates)
  {
    specs := [];
    for n := 0 to |picks|
      invariant specs == Specs(picks, n, dates)
    {
      if picks[n].ref.freq == Daily {
        var dated: seq<Spec> := [];
        for i := 0 to |dates|
          invariant |dated| == i && forall j :: 0 <= j < i ==> dated[j] == Spec(picks[n], Some(dates[j]))
        {
          dated := dated + [Spec(picks[n], Some(dates[i]))];
        }
        assert dated == DatedSpecs(picks[n], dates);
        specs := specs + dated;
      } else {
        specs := specs + [Spec(picks[n], None)];
      }
    }
  }

  /** Every column of the multi-date form is of a selection, daily ones at one of the dates. */
  lemma {:induction false} SpecsAreOfPicks(picks: seq<Pick>, n: nat, dates: seq<int>, i: nat)
    requires n <= |picks| && i < |Specs(picks, n, dates)|
    ensures var spec := Specs(picks, n, dates)[i];
            && spec.pick in picks
            && (spec.pick.ref.freq == Daily ==> spec.date.Some? && spec.date.value in dates)
            && (spec.pick.ref.freq != Daily ==> spec.date.None?)
  {
    if i < |Specs(picks, n - 1, dates)| {
      SpecsAreOfPicks(picks, n - 1, dates, i);
    } else {
      assert picks[n - 1] in picks;
    }
  }

  method AssembleMultiRows(db: Db, codes: seq<string>, picks: seq<Pick>, dates: seq<int>, spine: Loaded<int>,
      daily: map<int, map<string, Loaded<int>>>, statics: map<string, Loaded<int>>, factors: map<int, Factors>)
          returns (rows: seq<Row>)
    requires Types(picks, Period) == {}
    requires spine == LoadedOf(db.spine, All(), codes)
    requires Cached(db, picks, codes, dates, daily, factors)
    requires statics == StaticTables(db, Types(picks, Static) - {SPINE}, codes)
    ensures |rows| == |codes|
    ensures forall k :: 0 <= k < |codes| ==> rows[k] == MultiRow(db, picks, codes, codes[k], dates)
  {
    rows := [];
    var specs := ColumnSpecs(picks, dates);
    for k := 0 to |codes|
      invariant |rows| == k
      invariant forall j :: 0 <= j < k ==> rows[j] == MultiRow(db, picks, codes, codes[j], dates)
    {
      forall i | 0 <= i < |specs| ensures
          && (specs[i].date.Some? ==> specs[i].date.value in daily && specs[i].date.value in factors)
          && MultiWrites(db, picks, codes, codes[k], specs)[i] ==
             (ColumnOf(specs[i]), DatedValue(specs[i], codes[k], spine, daily, statics, factors)) {
        SpecsAreOfPicks(picks, |picks|, dates, i);
        assert specs[i].pick.ref.dataType in Types(picks, specs[i].pick.ref.freq);
        CachesAreTables(db, picks, codes, specs[i].pick, codes[k], specs[i].date.GetOr(0), map[]);
      }
      var row := FillMultiRow(specs, BaseRow(codes[k], spine), codes[k], spine, daily, statics, factors,
        MultiWrites(db, picks, codes, codes[k], specs));
      rows := rows + [row];
    }
  }

  function DatedValue(spec: Spec, code: string, spine: Loaded<int>, daily: map<int, map<string, Loaded<int>>>,
      statics: map<string, Loaded<int>>, factors: map<int, Factors>): Value
    requires spec.date.Some? ==> spec.date.value in daily && spec.date.value in factors
  {
    if spec.date.Some? then DailyValue(spec.pick, code, Of(daily[spec.date.value], spec.pick.ref.dataType),
        factors[spec.date.value])
    else StaticValue(spec.pick, code, spine, Of(statics, spec.pick.ref.dataType))
  }

  method FillMultiRow(specs: seq<Spec>, start: Row, code: string, spine: Loaded<int>,
        daily: map<int, map<string, Loaded<int>>>,
      statics: map<string, Loaded<int>>, factors: map<int, Factors>, ghost writes: seq<(Column, Value)>)
          returns (row: Row)
    requires forall i :: 0 <= i < |specs| && specs[i].date.Some? ==>
               specs[i].date.value in daily && specs[i].date.value in factors
    requires |writes| == |specs|
    requires forall i :: 0 <= i < |specs| ==>
             writes[i] == (ColumnOf(specs[i]), DatedValue(specs[i], code, spine, daily, statics, factors))
    ensures row == Put(start, writes, |writes|)
  {
    row := start;
    for i := 0 to |specs|
      invariant row == Put(start, writes, i)
    {
      row := row[ColumnOf(specs[i]) := DatedValue(specs[i], code, spine, daily, statics, factors)];
    }
  }

  /** The multi-date query; period indicators are refused. */
  method ExecuteMulti(db: Db, selections: seq<Selection>, registry: map<string, Registration>, codes: seq<string>,
      dates: seq<int>, holidays: set<int>) returns (answer: Answer)
    ensures var refusal := Refusal(db, selections, registry, codes, dates, holidays, true);
            if refusal.Some? then answer == Refused(refusal.value) else answer.Rows?
    ensures answer.Rows? ==>
              var picks := PicksOf(selections, registry);
              && EffectiveDates(dates, holidays) == Some(answer.effective)
              && |answer.rows| == |codes|
              && forall k :: 0 <= k < |codes| ==>
                   answer.rows[k] == MultiRow(db, picks, codes, codes[k], answer.effective)
  {
    var picks, error := ValidateIndicators(selections, registry);
    if error.Some? {
      return Refused(error.value);
    }
    if Types(picks, Period) != {} {
      return Refused("BROWSER_MULTI_DATE_PERIOD");
    }
    error := UniverseError(codes);
    if error.Some? {
      return Refused(error.value);
    }
    var nearest := NearestDates(dates, holidays);
    if nearest.None? {
      return Refused("ValueError");
    }
    var effective := nearest.value;
    if !db.spineActive {
      return Refused("BROWSER_INDICATOR_UNAVAILABLE");
    }
    var spine := Load(db.spine, All(), codes);
    var daily, factors := LoadDates(db, picks, codes, effective);
    var statics := LoadStaticTables(db, Types(picks, Static) - {SPINE}, codes);
    var rows := AssembleMultiRows(db, codes, picks, effective, spine, daily, statics, factors);
    answer := Rows(rows, effective);
  }

  // ----- One against several -----

  /** If the single-date query at one of the dates keeps its date, the multi-date row shows all of
      its cells. */
  lemma MultiShowsSingle(db: Db, picks: seq<Pick>, codes: seq<string>, code: string, dates: seq<int>,
        holidays: set<int>,
      primary: string, i: nat, p: Pick, reportDate: PeriodLoad.Date, unified: Option<PeriodLoad.Date>)
    requires Registered(picks) && Types(picks, Period) == {} && p in picks
    requires EffectiveDates(dates, holidays).Some? && i < |dates|
    requires EffectiveDate(db, picks, primary, EffectiveDates(dates, holidays).value[i]) ==
             EffectiveDates(dates, holidays).value[i]
    ensures var shown := EffectiveDates(dates, holidays).value;
            var multi := MultiRow(db, picks, codes, code, shown);
            var single := SingleRow(db, picks, codes, code, EffectiveDate(db, picks, primary, shown[i]),
                                    Reports(db, Types(picks, Period), codes, reportDate, unified));
            && Get(multi, StockCode) == Get(single, StockCode)
            && Get(multi, Name) == Get(single, Name)
            && Get(multi, if p.ref.freq == Daily then Dated(p.ref.id, shown[i]) else Base(p.ref.id)) ==
                 Get(single, Base(p.ref.id))
  {
    var shown := EffectiveDates(dates, holidays).value;
    assert p.ref.dataType in Types(picks, p.ref.freq);
    SideBySide(db, picks, codes, code, shown, shown[i], p);
    assert Reports(db, Types(picks, Period), codes, reportDate, unified) == map[];
  }

  /** A single-date query moves away from its date exactly when the primary table has no rows on it
      but some before it, and then to the latest date before it that has rows. */
  lemma MovesExactly(db: Db, picks: seq<Pick>, primary: string, date: int)
    requires Types(picks, Daily) != {} && primary in db.tables
    ensures var shown, table := EffectiveDate(db, picks, primary, date), db.tables[primary];
            && (shown != date <==> !HasRows(table, date) && exists r :: r in table && r.date < date)
            && (shown != date ==>
                  shown < date && HasRows(table, shown) && forall r :: r in table && r.date <= date ==> r.date <= shown)
  {
    var table := db.tables[primary];
    ResolveKeepsExactly(table, date);
    if !HasRows(table, date) && exists r :: r in table && r.date <= date {
      var r :| r in table && r.date <= date;
      assert r.date < date;
    }
  }

  /** The cell of a daily selection in both forms, whatever its table and whether or not the
      single-date query moved: its table on the column's date, and its table on the date shown. */
  lemma DailyCells(db: Db, picks: seq<Pick>, codes: seq<string>, code: string, dates: seq<int>, date: int, shown: int,
        p: Pick)
    requires Registered(picks) && date in dates && p in picks && p.ref.freq == Daily
    ensures var pick := LastPick(picks, p.ref.id, |picks|);
            && pick.Some?
            && Get(MultiRow(db, picks, codes, code, dates), Dated(p.ref.id, date)) ==
               Some(ValueAt(db, picks, codes, pick.value, code, date, map[]))
            && Get(SingleRow(db, picks, codes, code, shown, map[]), Base(p.ref.id)) ==
               Some(ValueAt(db, picks, codes, pick.value, code, shown, map[]))
  {
    Shown(picks, p);
    MultiRowCells(db, picks, codes, code, dates, Dated(p.ref.id, date));
    SingleRowCells(db, picks, codes, code, shown, map[], Base(p.ref.id));
  }

  /** The cell that a selection shows as null: there is none, it is null, or it is a price to be
      adjusted that does not read as a number. */
  predicate ShowsNull(pick: Pick, raw: Value) {
    raw == Null || (Ohlc(pick.ref.columnKey) && pick.adjust != "" && Float(raw).None?)
  }

  lemma {:induction false} NullExactly(pick: Pick, code: string, loaded: Loaded<int>, factors: Factors)
    ensures DailyValue(pick, code, loaded, factors) == Null <==> ShowsNull(pick, Cell(loaded, code, pick.ref.columnKey))
  {
  }

  lemma {:induction false} NothingOnQuietDate(table: Table, code: string, date: int, n: nat)
    requires n <= |table| && !HasRows(table, date)
    ensures LastRec(table, On(date), code, n) == None
  {
    if 0 < n {
      assert table[n - 1] in table;
      NothingOnQuietDate(table, code, date, n - 1);
    }
  }

  /** After a move the multi-date row shows null for every column of the primary table. The
      single-date row shows the same if and only if the code has no row on the date it moved to, or
      one that shows as null. */
  lemma MovedCellsAgreeExactly(db: Db, picks: seq<Pick>, codes: seq<string>, code: string, dates: seq<int>,
        primary: string, date: int, p: Pick)
    requires Registered(picks) && date in dates
    requires p in picks && p.ref.freq == Daily && p.ref.dataType == primary && primary in db.tables
    requires EffectiveDate(db, picks, primary, date) != date
    ensures var shown := EffectiveDate(db, picks, primary, date);
            var multi := Get(MultiRow(db, picks, codes, code, dates), Dated(p.ref.id, date));
            var single := Get(SingleRow(db, picks, codes, code, shown, map[]), Base(p.ref.id));
            var pick := LastPick(picks, p.ref.id, |picks|);
            && multi == Some(Null) && pick.Some?
            && (multi == single <==> ShowsNull(pick.value,
                 Cell(DailyAt(db, primary, codes, shown), code, p.ref.columnKey)))
  {
    var shown := EffectiveDate(db, picks, primary, date);
    assert p.ref.dataType in Types(picks, Daily);
    MovesExactly(db, picks, primary, date);
    DailyCells(db, picks, codes, code, dates, date, shown, p);
    Shown(picks, p);
    var pick := LastPick(picks, p.ref.id, |picks|).value;
    NothingOnQuietDate(db.tables[primary], code, date, |db.tables[primary]|);
    assert code !in DailyAt(db, primary, codes, date);
    NullExactly(pick, code, DailyAt(db, primary, codes, date), FactorsAt(db, picks, codes, date));
    NullExactly(pick, code, DailyAt(db, primary, codes, shown), FactorsAt(db, picks, codes, shown));
  }

  /** The two forms can differ: one price on day 1, asked for on day 2. The single-date query shows
      the price of day 1, the multi-date query null. */
  lemma MovedCellsDiffer(price: real)
    ensures var db := Db(true, [], map["tushare_daily" := [Rec("a", 1, map["close" := Num(price)])]], None, map[]);
            var picks := [Pick("", Indicator("c", "tushare_daily", "close", Daily))];
            && EffectiveDate(db, picks, "tushare_daily", 2) == 1
            && Get(MultiRow(db, picks, ["a"], "a", [2]), Dated("c", 2)) == Some(Null)
            && Get(SingleRow(db, picks, ["a"], "a", 1, map[]), Base("c")) == Some(Num(price))
  {
    var rec := Rec("a", 1, map["close" := Num(price)]);
    var db := Db(true, [], map["tushare_daily" := [rec]], None, map[]);
    var pick := Pick("", Indicator("c", "tushare_daily", "close", Daily));
    var picks := [pick];
    assert pick in picks && pick.ref.dataType in Types(picks, Daily);
    assert LatestUpTo([rec], 2, 1) == Some(1);
    assert !HasRows([rec], 2);
    MovedCellsAgreeExactly(db, picks, ["a"], "a", [2], "tushare_daily", 2, pick);
    DailyCells(db, picks, ["a"], "a", [2], 2, 1, pick);
    assert LastPick(picks, "c", 1) == Some(pick);
    assert LastRec([rec], On(1), "a", 1) == Some(rec);
    assert DailyAt(db, "tushare_daily", ["a"], 1)["a"] == rec;
  }
}
