/** What the cells of the wide table show, read off the tables. */
module BrowserCells {
  import opened Options
  import opened BrowserTables
  import opened BrowserRows
  import PeriodLoad

  // ----- Adjusting one price -----

  /** Backward adjustment multiplies by the factor of the day; forward adjustment divides by the
      latest factor as well, so it leaves the prices of the latest day as they are. A price without
      a factor, or without an adjustment, stays as it is. */
  lemma {:induction false} AdjustedPrices(x: real, f: real, l: real, latest: Option<real>, adjust: string)
    ensures Adjusted(Num(x), "hfq", Some(f), latest) == Num(x * f)
    ensures l != 0.0 ==> Adjusted(Num(x), "qfq", Some(f), Some(l)) == Num(x * f / l)
    ensures Adjusted(Num(x), "qfq", Some(f), Some(f)) == Num(x)
    ensures Adjusted(Num(x), "qfq", Some(f), None) == Num(x)
    ensures Adjusted(Num(x), "qfq", Some(f), Some(0.0)) == Num(x)
    ensures Adjusted(Num(x), adjust, None, latest) == Num(x)
    ensures Adjusted(Num(x), "", Some(f), latest) == Num(x) && Adjusted(Num(x), "none", Some(f), latest) == Num(x)
  {
    Backward(x, f, latest);
    if l != 0.0 { Forward(x, f, l); }
    OnLatestDay(x, f);
  }

  lemma {:induction false} Backward(x: real, f: real, latest: Option<real>)
    ensures Adjusted(Num(x), "hfq", Some(f), latest) == Num(x * f)
  {
  }

  lemma {:induction false} Forward(x: real, f: real, l: real)
    requires l != 0.0
    ensures Adjusted(Num(x), "qfq", Some(f), Some(l)) == Num(x * f / l)
  {
    assert "qfq" != "hfq";
  }

  lemma {:induction false} OnLatestDay(x: real, f: real)
    ensures Adjusted(Num(x), "qfq", Some(f), Some(f)) == Num(x)
    ensures Adjusted(Num(x), "qfq", Some(f), None) == Num(x)
  {
    assert "qfq" != "hfq";
    if f != 0.0 { Cancel(x, f); }
  }

  lemma {:induction false} Cancel(x: real, f: real)
    requires f != 0.0
    ensures x * f / f == x
  {
  }

  // ----- The rows a cell is made from -----

  /** Row i is the last one of a code on a date. */
  ghost predicate LastOn(table: Table, code: string, date: int, i: nat)
    requires i < |table|
  {
    && table[i].code == code && table[i].date == date
    && forall j :: i < j < |table| ==> !(table[j].code == code && table[j].date == date)
  }

  /** The row's adjustment factor is f. */
  predicate HasFactor(r: Rec<int>, f: real) {
    "adj_factor" in r.cells && Float(r.cells["adj_factor"]) == Some(f)
  }

  /** Row i is the last one of a code on a date that has a factor. */
  ghost predicate FactorOnDate(table: Table, code: string, date: int, f: real, i: nat)
    requires i < |table|
  {
    && table[i].code == code && table[i].date == date && HasFactor(table[i], f)
    && forall j, g :: i < j < |table| && HasFactor(table[j], g) ==> !(table[j].code == code && table[j].date == date)
  }

  /** Row i is the last one of a code's latest date that has a factor. */
  ghost predicate FactorOfLatest(table: Table, code: string, f: real, i: nat)
    requires i < |table|
  {
    && (forall q :: q in table && q.code == code ==> q.date <= table[i].date)
    && FactorOnDate(table, code, table[i].date, f, i)
  }

  ghost predicate NoFactorOn(table: Table, code: string, date: int) {
    forall j, g :: 0 <= j < |table| && table[j].code == code && table[j].date == date ==> !HasFactor(table[j], g)
  }

  lemma {:induction false} OnDate(table: Table, codes: seq<string>, code: string, date: int, i: nat, column: string)
    requires code in codes && i < |table| && LastOn(table, code, date, i)
    ensures Cell(LoadedOf(table, On(date), codes), code, column) ==
            if column in table[i].cells then table[i].cells[column] else Null
  {
    assert IsLast(table, On(date), code, i);
    LastIsLoaded(table, On(date), codes, code, i);
  }

  lemma {:induction false} FactorLoaded(table: Table, codes: seq<string>, code: string, date: int, f: real, i: nat)
    requires code in codes && i < |table| && FactorOnDate(table, code, date, f, i)
    ensures Float(Cell(LoadedOf(table, FactorOn(date), codes), code, "adj_factor")) == Some(f)
  {
    forall j | i < j < |table| ensures !(table[j].code == code && FactorOn(date)(table[j])) {
      if Factor(table[j]).Some? { assert HasFactor(table[j], Factor(table[j]).value); }
    }
    assert IsLast(table, FactorOn(date), code, i);
    LastIsLoaded(table, FactorOn(date), codes, code, i);
  }

  lemma {:induction false} LatestLoaded(table: Table, codes: seq<string>, code: string, f: real, i: nat)
    requires code in codes && i < |table| && FactorOfLatest(table, code, f, i)
    ensures Float(Cell(LoadedOf(table, LatestFactor(table), codes), code, "adj_factor")) == Some(f)
  {
    forall j | i < j < |table| ensures !(table[j].code == code && LatestFactor(table)(table[j])) {
      if Factor(table[j]).Some? {
        assert HasFactor(table[j], Factor(table[j]).value);
        assert table[i] in table;
      }
    }
    assert IsLast(table, LatestFactor(table), code, i);
    LastIsLoaded(table, LatestFactor(table), codes, code, i);
  }

  lemma {:induction false} NoFactorLoaded(table: Table, codes: seq<string>, code: string, date: int)
    requires NoFactorOn(table, code, date)
    ensures code !in LoadedOf(table, FactorOn(date), codes)
  {
    forall j | 0 <= j < |table| ensures !(table[j].code == code && FactorOn(date)(table[j])) {
      if Factor(table[j]).Some? { assert HasFactor(table[j], Factor(table[j]).value); }
    }
    LoadedIsLast(table, FactorOn(date), codes, code);
  }

  // ----- Daily cells -----

  predicate IsPrice(column: string) { column in {"open", "high", "low", "close"} }

  /** A selection that is not an adjusted price shows the cell of the code's last row on the date. */
  lemma {:induction false} PlainCell(db: Db, picks: seq<Pick>, codes: seq<string>, pick: Pick, code: string, date: int,
      i: nat)
    requires pick.ref.freq == Daily && code in codes && pick.ref.dataType in db.tables
    requires i < |db.tables[pick.ref.dataType]| && LastOn(db.tables[pick.ref.dataType], code, date, i)
    requires pick.adjust == "" || !IsPrice(pick.ref.columnKey)
    ensures var cells := db.tables[pick.ref.dataType][i].cells;
            ValueAt(db, picks, codes, pick, code, date, map[]) ==
            if pick.ref.columnKey in cells then cells[pick.ref.columnKey] else Null
  {
    OnDate(db.tables[pick.ref.dataType], codes, code, date, i, pick.ref.columnKey);
  }

  /** Without a row of the code on the date the cell is null. */
  lemma {:induction false} MissingCell(db: Db, picks: seq<Pick>, codes: seq<string>, pick: Pick, code: string,
      date: int)
    requires pick.ref.freq == Daily
    requires pick.ref.dataType in db.tables ==>
               forall r :: r in db.tables[pick.ref.dataType] ==> !(r.code == code && r.date == date)
    ensures ValueAt(db, picks, codes, pick, code, date, map[]) == Null
  {
    if pick.ref.dataType in db.tables {
      LoadedIsLast(db.tables[pick.ref.dataType], On(date), codes, code);
    }
  }

  /** The value of a selected price: x in the code's last row on the date. */
  ghost predicate PriceRow(db: Db, pick: Pick, code: string, date: int, x: real) {
    && pick.ref.freq == Daily && pick.ref.dataType in db.tables && IsPrice(pick.ref.columnKey)
    && exists i :: 0 <= i < |db.tables[pick.ref.dataType]| && LastOn(db.tables[pick.ref.dataType], code, date, i)
         && pick.ref.columnKey in db.tables[pick.ref.dataType][i].cells
         && Float(db.tables[pick.ref.dataType][i].cells[pick.ref.columnKey]) == Some(x)
  }

  lemma {:induction false} PriceOnDate(db: Db, codes: seq<string>, pick: Pick, code: string, date: int, x: real)
    requires code in codes && PriceRow(db, pick, code, date, x)
    ensures Float(Cell(DailyAt(db, pick.ref.dataType, codes, date), code, pick.ref.columnKey)) == Some(x)
  {
    var table := db.tables[pick.ref.dataType];
    var i :| 0 <= i < |table| && LastOn(table, code, date, i) && pick.ref.columnKey in table[i].cells
      && Float(table[i].cells[pick.ref.columnKey]) == Some(x);
    OnDate(table, codes, code, date, i, pick.ref.columnKey);
  }

  lemma {:induction false} PriceValue(pick: Pick, code: string, loaded: Loaded<int>, factors: Factors, x: real)
    requires IsPrice(pick.ref.columnKey) && pick.adjust != ""
    requires Float(Cell(loaded, code, pick.ref.columnKey)) == Some(x)
    ensures DailyValue(pick, code, loaded, factors) ==
            Adjusted(Num(x), pick.adjust, Float(Cell(factors.onDate, code, "adj_factor")),
                Float(Cell(factors.latest, code, "adj_factor")))
  {
  }

  lemma {:induction false} PriceIsAdjusted(db: Db, picks: seq<Pick>, codes: seq<string>, pick: Pick, code: string,
      date: int, x: real)
    requires code in codes && PriceRow(db, pick, code, date, x) && pick.adjust != ""
    ensures var factors := FactorsAt(db, picks, codes, date);
            ValueAt(db, picks, codes, pick, code, date, map[]) ==
            Adjusted(Num(x), pick.adjust, Float(Cell(factors.onDate, code, "adj_factor")),
                Float(Cell(factors.latest, code, "adj_factor")))
  {
    var factors := FactorsAt(db, picks, codes, date);
    PriceOnDate(db, codes, pick, code, date, x);
    PriceValue(pick, code, DailyAt(db, pick.ref.dataType, codes, date), factors, x);
  }

  /** Backward adjusted: the price times the day's factor. */
  lemma BackwardCell(db: Db, picks: seq<Pick>, codes: seq<string>, pick: Pick, code: string, date: int, x: real,
      f: real, i: nat)
    requires code in codes && pick in picks && PriceRow(db, pick, code, date, x) && pick.adjust == "hfq"
    requires db.adj.Some? && i < |db.adj.value| && FactorOnDate(db.adj.value, code, date, f, i)
    ensures ValueAt(db, picks, codes, pick, code, date, map[]) == Num(x * f)
  {
    PriceIsAdjusted(db, picks, codes, pick, code, date, x);
    DayFactor(db, picks, codes, pick, code, date, f, i);
    Backward(x, f, Float(Cell(FactorsAt(db, picks, codes, date).latest, code, "adj_factor")));
  }

  lemma {:induction false} DayFactor(db: Db, picks: seq<Pick>, codes: seq<string>, pick: Pick, code: string,
      date: int, f: real, i: nat)
    requires code in codes && pick in picks && IsPrice(pick.ref.columnKey) && pick.adjust in {"hfq", "qfq"}
    requires db.adj.Some? && i < |db.adj.value| && FactorOnDate(db.adj.value, code, date, f, i)
    ensures NeedsAdj(picks)
    ensures Float(Cell(FactorsAt(db, picks, codes, date).onDate, code, "adj_factor")) == Some(f)
  {
    FactorLoaded(db.adj.value, codes, code, date, f, i);
    assert pick.adjust != "" && pick.adjust != "none" && Ohlc(pick.ref.columnKey);
  }

  lemma {:induction false} BothFactors(db: Db, picks: seq<Pick>, codes: seq<string>, pick: Pick, code: string,
      date: int, f: real, i: nat, l: real, k: nat)
    requires code in codes && pick in picks && IsPrice(pick.ref.columnKey) && pick.adjust == "qfq"
    requires db.adj.Some? && i < |db.adj.value| && FactorOnDate(db.adj.value, code, date, f, i)
    requires k < |db.adj.value| && FactorOfLatest(db.adj.value, code, l, k)
    ensures var factors := FactorsAt(db, picks, codes, date);
            && Float(Cell(factors.onDate, code, "adj_factor")) == Some(f)
            && Float(Cell(factors.latest, code, "adj_factor")) == Some(l)
  {
    DayFactor(db, picks, codes, pick, code, date, f, i);
    LatestLoaded(db.adj.value, codes, code, l, k);
  }

  /** Forward adjusted: the price times the day's factor over the latest one. */
  lemma ForwardCell(db: Db, picks: seq<Pick>, codes: seq<string>, pick: Pick, code: string, date: int, x: real,
      f: real, i: nat, l: real, k: nat)
    requires code in codes && pick in picks && PriceRow(db, pick, code, date, x) && pick.adjust == "qfq" && l != 0.0
    requires db.adj.Some? && i < |db.adj.value| && FactorOnDate(db.adj.value, code, date, f, i)
    requires k < |db.adj.value| && FactorOfLatest(db.adj.value, code, l, k)
    ensures ValueAt(db, picks, codes, pick, code, date, map[]) == Num(x * f / l)
  {
    PriceIsAdjusted(db, picks, codes, pick, code, date, x);
    BothFactors(db, picks, codes, pick, code, date, f, i, l, k);
    Forward(x, f, l);
  }

  /** Without a factor on the day, or with the adjustment none, the price is shown as it is. */
  lemma UnadjustedCell(db: Db, picks: seq<Pick>, codes: seq<string>, pick: Pick, code: string, date: int, x: real)
    requires code in codes && PriceRow(db, pick, code, date, x) && pick.adjust != ""
    requires pick.adjust == "none" || db.adj.None? || NoFactorOn(db.adj.value, code, date)
    ensures ValueAt(db, picks, codes, pick, code, date, map[]) == Num(x)
  {
    PriceIsAdjusted(db, picks, codes, pick, code, date, x);
    if db.adj.Some? && NoFactorOn(db.adj.value, code, date) { NoFactorLoaded(db.adj.value, codes, code, date); }
  }

  // ----- Other cells -----

  /** A static cell is that of the code's last row, in the list of stocks or in its own table. */
  lemma {:induction false} StaticCell(db: Db, picks: seq<Pick>, codes: seq<string>, pick: Pick, code: string,
      date: int, table: Table, i: nat)
    requires pick.ref.freq == Static && code in codes
    requires if pick.ref.dataType == "tushare_stock_basic" then table == db.spine
             else pick.ref.dataType in db.tables && table == db.tables[pick.ref.dataType]
    requires i < |table| && table[i].code == code && forall j :: i < j < |table| ==> table[j].code != code
    ensures ValueAt(db, picks, codes, pick, code, date, map[]) ==
            if pick.ref.columnKey in table[i].cells then table[i].cells[pick.ref.columnKey] else Null
  {
    assert IsLast(table, All(), code, i);
    LastIsLoaded(table, All(), codes, code, i);
  }

  /** Every row shows its code, and the name from the list of stocks; a code without one is named by
      its stock code there or by itself. */
  lemma {:induction false} NameCell(spine: Table, codes: seq<string>, code: string, i: nat, s: string)
    requires code in codes && i < |spine| && spine[i].code == code
    requires forall j :: i < j < |spine| ==> spine[j].code != code
    ensures var row := BaseRow(code, LoadedOf(spine, All(), codes));
            && Get(row, StockCode) == Some(Text(code, None))
            && ("name" in spine[i].cells && spine[i].cells["name"] == Text(s, None) && s != "" ==>
                  Get(row, Name) == Some(Text(s, None)))
            && ("name" !in spine[i].cells && "stock_code" !in spine[i].cells ==>
                  Get(row, Name) == Some(Text(code, None)))
            && ("name" !in spine[i].cells && "stock_code" in spine[i].cells
                && spine[i].cells["stock_code"] == Text(s, None) && s != "" ==>
                  Get(row, Name) == Some(Text(s, None)))
  {
    assert IsLast(spine, All(), code, i);
    LastIsLoaded(spine, All(), codes, code, i);
  }

  /** A period cell is that of the code's point-in-time report. */
  lemma {:induction false} PeriodCell(db: Db, picks: seq<Pick>, codes: seq<string>, pick: Pick, code: string,
      date: int, periods: map<string, Loaded<PeriodLoad.Date>>, table: seq<Rec<PeriodLoad.Date>>,
      asOf: PeriodLoad.Date, unified: Option<PeriodLoad.Date>, k: nat)
    requires pick.ref.freq == Period && pick.ref.dataType in periods && code in codes && k < |table|
    requires PeriodLoad.PointInTime(periods[pick.ref.dataType], table, codes, asOf, unified)
    requires PeriodLoad.IsReport(table, k, code, asOf, unified)
    ensures ValueAt(db, picks, codes, pick, code, date, periods) ==
            if pick.ref.columnKey in table[k].cells then table[k].cells[pick.ref.columnKey] else Null
  {
    var best := periods[pick.ref.dataType];
    if code in best {
      var i :| 0 <= i < |table| && table[i] == best[code] && PeriodLoad.IsReport(table, i, code, asOf, unified);
      assert i == k;
    }
  }

  // ----- In the rows -----

  /** The cell of an indicator, in both forms, is the value of its last selection; so what is said
      about values above is said about cells. */
  lemma CellsAreValues(db: Db, picks: seq<Pick>, codes: seq<string>, code: string, dates: seq<int>, date: int, n: nat)
    requires Registered(picks) && n < |picks| && picks[n].ref.freq != Period && date in dates
    requires forall m :: n < m < |picks| ==> picks[m].ref.id != picks[n].ref.id
    ensures var id, value := picks[n].ref.id, ValueAt(db, picks, codes, picks[n], code, date, map[]);
            && Get(SingleRow(db, picks, codes, code, date, map[]), Base(id)) == Some(value)
            && Get(MultiRow(db, picks, codes, code, dates),
                 if picks[n].ref.freq == Daily then Dated(id, date) else Base(id)) == Some(value)
  {
    SideBySide(db, picks, codes, code, dates, date, picks[n]);
    SingleRowCells(db, picks, codes, code, date, map[], Base(picks[n].ref.id));
    LastPickIs(picks, n, |picks|);
  }

  lemma {:induction false} LastPickIs(picks: seq<Pick>, n: nat, m: nat)
    requires n < m <= |picks| && forall k :: n < k < m ==> picks[k].ref.id != picks[n].ref.id
    ensures LastPick(picks, picks[n].ref.id, m) == Some(picks[n])
  {
    if n + 1 < m { LastPickIs(picks, n, m - 1); }
  }
}
