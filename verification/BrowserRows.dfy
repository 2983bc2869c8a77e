/** The wide table: one row for each code, one column for each indicator (and date). */
module BrowserRows {
  import opened Options
  import opened BrowserTables
  import PeriodLoad

  const SPINE := "tushare_stock_basic"

  datatype Freq = Static | Daily | Period

  /** A registered indicator: a column of a table. */
  datatype Indicator = Indicator(id: string, dataType: string, columnKey: string, freq: Freq)

  /** A selected indicator; the adjustment is "", "none", "qfq" or "hfq". */
  datatype Pick = Pick(adjust: string, ref: Indicator)

  /** A column: the code, the name, an indicator, or an indicator at a date. */
  datatype Column = StockCode | Name | Base(id: string) | Dated(id: string, date: int)

  type Row = map<Column, Value>

  type Table = seq<Rec<int>>

  /** The tables by data type; the ones that are not there have no entry. */
  datatype Db = Db(spineActive: bool, spine: Table, tables: map<string, Table>, adj: Option<Table>,
    reports: map<string, seq<Rec<PeriodLoad.Date>>>)

  /** One registry: an id stands for one indicator. */
  ghost predicate Registered(picks: seq<Pick>) {
    forall i, j :: 0 <= i < |picks| && 0 <= j < |picks| && picks[i].ref.id == picks[j].ref.id ==>
        picks[i].ref == picks[j].ref
  }

  // ----- Which rows are loaded -----

  function All(): Rec<int> -> bool { (r: Rec<int>) => true }

  function On(date: int): Rec<int> -> bool { (r: Rec<int>) => r.date == date }

  function Factor(r: Rec<int>): Option<real> {
    if "adj_factor" in r.cells then Float(r.cells["adj_factor"]) else None
  }

  function FactorOn(date: int): Rec<int> -> bool { (r: Rec<int>) => r.date == date && Factor(r).Some? }

  function LatestFactor(table: Table): Rec<int> -> bool {
    (r: Rec<int>) => Factor(r).Some? && forall q :: q in table && q.code == r.code ==> q.date <= r.date
  }

  predicate Ohlc(key: string) { key in {"open", "high", "low", "close"} }

  predicate NeedsAdj(picks: seq<Pick>) {
    exists p :: p in picks && p.adjust != "" && p.adjust != "none" && Ohlc(p.ref.columnKey)
  }

  function Types(picks: seq<Pick>, freq: Freq): set<string> {
    set p | p in picks && p.ref.freq == freq :: p.ref.dataType
  }

  /** The rows of one table at a date. */
  function DailyAt(db: Db, dt: string, codes: seq<string>, date: int): Loaded<int> {
    if dt in db.tables then LoadedOf(db.tables[dt], On(date), codes) else map[]
  }

  function StaticOf(db: Db, dt: string, codes: seq<string>): Loaded<int> {
    if dt in db.tables then LoadedOf(db.tables[dt], All(), codes) else map[]
  }

  datatype Factors = Factors(onDate: Loaded<int>, latest: Loaded<int>)

  /** The adjustment factors of a date, and the latest ones, if any selection needs them. */
  function FactorsAt(db: Db, picks: seq<Pick>, codes: seq<string>, date: int): Factors {
    if NeedsAdj(picks) && db.adj.Some? then
      Factors(LoadedOf(db.adj.value, FactorOn(date), codes), LoadedOf(db.adj.value, LatestFactor(db.adj.value), codes))
    else Factors(map[], map[])
  }

  // ----- Cells -----

  /** Adjusting a price: forward by the factor, backward by the factor over the latest one. */
  function Adjusted(raw: Value, adjust: string, factor: Option<real>, latest: Option<real>): Value {
    if Float(raw).None? then Null
    else
      var price := Float(raw).value;
      if adjust == "" || adjust == "none" || factor.None? then Num(price)
      else if adjust == "hfq" then Num(price * factor.value)
      else if adjust == "qfq" then
        var base := latest.GetOr(factor.value);
        if base == 0.0 then Num(price) else Num(price * factor.value / base)
      else Num(price)
  }

  function DailyValue(pick: Pick, code: string, loaded: Loaded<int>, factors: Factors): Value {
    var raw := Cell(loaded, code, pick.ref.columnKey);
    if Ohlc(pick.ref.columnKey) && pick.adjust != "" then
      Adjusted(raw, pick.adjust, Float(Cell(factors.onDate, code, "adj_factor")),
          Float(Cell(factors.latest, code, "adj_factor")))
    else raw
  }

  function StaticValue(pick: Pick, code: string, spine: Loaded<int>, loaded: Loaded<int>): Value {
    if pick.ref.dataType == SPINE then Cell(spine, code, pick.ref.columnKey) else Cell(loaded, code, pick.ref.columnKey)
  }

  predicate Truthy(v: Value) {
    match v
    case Null => false
    case Num(x) => x != 0.0
    case Text(s, _) => s != ""
  }

  function BaseRow(code: string, spine: Loaded<int>): Row {
    var name, known := Cell(spine, code, "name"), Cell(spine, code, "stock_code");
    map[StockCode := Text(code, None), Name := if Truthy(name) then name else if Truthy(known) then known
        else Text(code, None)]
  }

  // ----- Rows as writes -----

  /** The first n writes into a row, in order. */
  function Put(row: Row, writes: seq<(Column, Value)>, n: nat): Row
    requires n <= |writes|
  {
    if n == 0 then row else Put(row, writes, n - 1)[writes[n - 1].0 := writes[n - 1].1]
  }

  function LastWrite(writes: seq<(Column, Value)>, key: Column, n: nat): Option<Value>
    requires n <= |writes|
  {
    if n == 0 then None else if writes[n - 1].0 == key then Some(writes[n - 1].1) else LastWrite(writes, key, n - 1)
  }

  lemma {:induction false} PutThenGet(row: Row, writes: seq<(Column, Value)>, n: nat, key: Column)
    requires n <= |writes|
    ensures key in Put(row, writes, n) <==> key in row || LastWrite(writes, key, n).Some?
    ensures key in Put(row, writes, n) ==>
              Put(row, writes, n)[key] == if LastWrite(writes, key, n).Some? then LastWrite(writes, key, n).value
                  else row[key]
  {
    if 0 < n { PutThenGet(row, writes, n - 1, key); }
  }

  // ----- The two forms -----

  /** The value of a selection at a date (a period indicator reads its loaded report). */
  function ValueAt(db: Db, picks: seq<Pick>, codes: seq<string>, pick: Pick, code: string, date: int,
      periods: map<string, Loaded<PeriodLoad.Date>>): Value
  {
    match pick.ref.freq
    case Static => StaticValue(pick, code, LoadedOf(db.spine, All(), codes), StaticOf(db, pick.ref.dataType, codes))
    case Daily => DailyValue(pick, code, DailyAt(db, pick.ref.dataType, codes, date), FactorsAt(db, picks, codes, date))
    case Period => if pick.ref.dataType in periods then Cell(periods[pick.ref.dataType], code, pick.ref.columnKey)
        else Null
  }

  /** A single-date row writes one cell for each selection, in order. */
  function SingleWrites(db: Db, picks: seq<Pick>, codes: seq<string>, code: string, date: int,
      periods: map<string, Loaded<PeriodLoad.Date>>): (writes: seq<(Column, Value)>)
    ensures |writes| == |picks|
    ensures forall i :: 0 <= i < |picks| ==>
              writes[i] == (Base(picks[i].ref.id), ValueAt(db, picks, codes, picks[i], code, date, periods))
  {
    seq(|picks|, i requires 0 <= i < |picks| => (Base(picks[i].ref.id),
        ValueAt(db, picks, codes, picks[i], code, date, periods)))
  }

  function SingleRow(db: Db, picks: seq<Pick>, codes: seq<string>, code: string, date: int,
      periods: map<string, Loaded<PeriodLoad.Date>>): Row
  {
    Put(BaseRow(code, LoadedOf(db.spine, All(), codes)), SingleWrites(db, picks, codes, code, date, periods), |picks|)
  }

  /** A column of the multi-date form: a selection, and a date when it is daily. */
  datatype Spec = Spec(pick: Pick, date: Option<int>)

  function DatedSpecs(pick: Pick, dates: seq<int>): (specs: seq<Spec>)
    ensures |specs| == |dates| && forall i :: 0 <= i < |dates| ==> specs[i] == Spec(pick, Some(dates[i]))
  {
    seq(|dates|, i requires 0 <= i < |dates| => Spec(pick, Some(dates[i])))
  }

  /** A daily selection has one column for each date, another one has one column. */
  function PickSpecs(pick: Pick, dates: seq<int>): seq<Spec> {
    if pick.ref.freq == Daily then DatedSpecs(pick, dates) else [Spec(pick, None)]
  }

  function Specs(picks: seq<Pick>, n: nat, dates: seq<int>): seq<Spec>
    requires n <= |picks|
  {
    if n == 0 then [] else Specs(picks, n - 1, dates) + PickSpecs(picks[n - 1], dates)
  }

  function ColumnOf(spec: Spec): Column {
    if spec.date.Some? then Dated(spec.pick.ref.id, spec.date.value) else Base(spec.pick.ref.id)
  }

  function MultiWrites(db: Db, picks: seq<Pick>, codes: seq<string>, code: string,
        specs: seq<Spec>): (writes: seq<(Column, Value)>)
    ensures |writes| == |specs|
    ensures forall i :: 0 <= i < |specs| ==>
              writes[i] == (ColumnOf(specs[i]),
                  ValueAt(db, picks, codes, specs[i].pick, code, specs[i].date.GetOr(0), map[]))
  {
    seq(|specs|, i requires 0 <= i < |specs| =>
      (ColumnOf(specs[i]), ValueAt(db, picks, codes, specs[i].pick, code, specs[i].date.GetOr(0), map[])))
  }

  function MultiRow(db: Db, picks: seq<Pick>, codes: seq<string>, code: string, dates: seq<int>): Row {
    var specs := Specs(picks, |picks|, dates);
    Put(BaseRow(code, LoadedOf(db.spine, All(), codes)), MultiWrites(db, picks, codes, code, specs), |specs|)
  }

  // ----- Side by side -----

  function LastPick(picks: seq<Pick>, id: string, n: nat): (pick: Option<Pick>)
    requires n <= |picks|
    ensures pick.Some? ==> pick.value in picks && pick.value.ref.id == id
  {
    if n == 0 then None else if picks[n - 1].ref.id == id then Some(picks[n - 1]) else LastPick(picks, id, n - 1)
  }

  lemma {:induction false} SingleLastWrite(db: Db, picks: seq<Pick>, n: nat, codes: seq<string>, code: string,
        date: int, periods: map<string, Loaded<PeriodLoad.Date>>, key: Column)
    requires n <= |picks|
    ensures LastWrite(SingleWrites(db, picks, codes, code, date, periods), key, n) ==
            if key.Base? && LastPick(picks, key.id, n).Some? then
              Some(ValueAt(db, picks, codes, LastPick(picks, key.id, n).value, code, date, periods))
            else None
  {
    if 0 < n { SingleLastWrite(db, picks, n - 1, codes, code, date, periods, key); }
  }

  function LastSpec(specs: seq<Spec>, key: Column, n: nat): Option<Spec>
    requires n <= |specs|
  {
    if n == 0 then None else if ColumnOf(specs[n - 1]) == key then Some(specs[n - 1]) else LastSpec(specs, key, n - 1)
  }

  lemma {:induction false} LastSpecJoin(a: seq<Spec>, b: seq<Spec>, key: Column, n: nat)
    requires n <= |b|
    ensures LastSpec(a + b, key, |a| + n) == if LastSpec(b, key, n).Some? then LastSpec(b, key, n)
            else LastSpec(a, key, |a|)
    decreases n
  {
    if 0 < n {
      LastSpecJoin(a, b, key, n - 1);
      assert (a + b)[|a| + n - 1] == b[n - 1];
    } else {
      LastSpecPrefix(a, b, key, |a|);
    }
  }

  lemma {:induction false} LastSpecPrefix(a: seq<Spec>, b: seq<Spec>, key: Column, n: nat)
    requires n <= |a|
    ensures LastSpec(a + b, key, n) == LastSpec(a, key, n)
  {
    if 0 < n {
      LastSpecPrefix(a, b, key, n - 1);
      assert (a + b)[n - 1] == a[n - 1];
    }
  }

  lemma {:induction false} DatedLastSpec(pick: Pick, dates: seq<int>, m: nat, key: Column)
    requires m <= |dates|
    ensures LastSpec(DatedSpecs(pick, dates), key, m) ==
            if key.Dated? && key.id == pick.ref.id
                && (exists i :: 0 <= i < m && dates[i] == key.date) then Some(Spec(pick, Some(key.date)))
            else None
  {
    if 0 < m { DatedLastSpec(pick, dates, m - 1, key); }
  }

  /** The column's specification among those of one selection. */
  function SpecOf(pick: Pick, dates: seq<int>, key: Column): Option<Spec> {
    if key.Dated? && key.id == pick.ref.id && pick.ref.freq == Daily
        && key.date in dates then Some(Spec(pick, Some(key.date)))
    else if key.Base? && key.id == pick.ref.id && pick.ref.freq != Daily then Some(Spec(pick, None))
    else None
  }

  lemma {:induction false} PickLastSpec(pick: Pick, dates: seq<int>, key: Column)
    ensures LastSpec(PickSpecs(pick, dates), key, |PickSpecs(pick, dates)|) == SpecOf(pick, dates, key)
  {
    if pick.ref.freq == Daily {
      DatedLastSpec(pick, dates, |dates|, key);
    } else {
      assert LastSpec([Spec(pick, None)], key, 1) == if ColumnOf(Spec(pick, None)) == key then Some(Spec(pick, None))
          else None;
    }
  }

  /** What a column of the multi-date form is made from: the last selection of its indicator. */
  function SpecAt(picks: seq<Pick>, n: nat, dates: seq<int>, key: Column): Option<Spec>
    requires n <= |picks|
  {
    if !key.Base? && !key.Dated? then None
    else match LastPick(picks, key.id, n) case None => None case Some(pick) => SpecOf(pick, dates, key)
  }

  lemma {:induction false} SpecAtStep(picks: seq<Pick>, n: nat, dates: seq<int>, key: Column)
    requires Registered(picks) && 0 < n <= |picks|
    ensures var own := SpecOf(picks[n - 1], dates, key);
            SpecAt(picks, n, dates, key) == if own.Some? then own else SpecAt(picks, n - 1, dates, key)
  {
    if key.Base? || key.Dated? {
      var before := LastPick(picks, key.id, n - 1);
      if picks[n - 1].ref.id == key.id && before.Some? { assert before.value.ref == picks[n - 1].ref; }
    }
  }

  lemma {:induction false} LastSpecOfAll(picks: seq<Pick>, n: nat, dates: seq<int>, key: Column)
    requires Registered(picks) && n <= |picks|
    ensures LastSpec(Specs(picks, n, dates), key, |Specs(picks, n, dates)|) == SpecAt(picks, n, dates, key)
  {
    if 0 < n {
      LastSpecOfAll(picks, n - 1, dates, key);
      var before, own := Specs(picks, n - 1, dates), PickSpecs(picks[n - 1], dates);
      LastSpecJoin(before, own, key, |own|);
      PickLastSpec(picks[n - 1], dates, key);
      SpecAtStep(picks, n, dates, key);
      assert |before + own| == |before| + |own|;
    }
  }

  lemma {:induction false} MultiLastWrite(db: Db, picks: seq<Pick>, codes: seq<string>, code: string, specs: seq<Spec>,
        key: Column, n: nat)
    requires n <= |specs|
    ensures LastWrite(MultiWrites(db, picks, codes, code, specs), key, n) ==
            match LastSpec(specs, key, n)
            case None => None
            case Some(spec) => Some(ValueAt(db, picks, codes, spec.pick, code, spec.date.GetOr(0), map[]))
  {
    if 0 < n { MultiLastWrite(db, picks, codes, code, specs, key, n - 1); }
  }

  /** What a multi-date row holds in a column. */
  function MultiCell(db: Db, picks: seq<Pick>, codes: seq<string>, code: string, dates: seq<int>,
        key: Column): Option<Value> {
    match SpecAt(picks, |picks|, dates, key)
    case None => None
    case Some(spec) => Some(ValueAt(db, picks, codes, spec.pick, code, spec.date.GetOr(0), map[]))
  }

  lemma {:induction false} LastPickExists(picks: seq<Pick>, n: nat, i: nat)
    requires i < n <= |picks|
    ensures LastPick(picks, picks[i].ref.id, n).Some?
  {
    if i < n - 1 { LastPickExists(picks, n - 1, i); }
  }

  /** A selection of an indicator that is selected more than once: the last one is the one shown. */
  lemma {:induction false} Shown(picks: seq<Pick>, p: Pick)
    requires Registered(picks) && p in picks
    ensures LastPick(picks, p.ref.id, |picks|).Some? && LastPick(picks, p.ref.id, |picks|).value.ref == p.ref
  {
    var i :| 0 <= i < |picks| && picks[i] == p;
    LastPickExists(picks, |picks|, i);
  }

  function SingleCell(db: Db, picks: seq<Pick>, codes: seq<string>, code: string, date: int,
      periods: map<string, Loaded<PeriodLoad.Date>>, key: Column): Option<Value>
  {
    if key.Base? && LastPick(picks, key.id, |picks|).Some? then
      Some(ValueAt(db, picks, codes, LastPick(picks, key.id, |picks|).value, code, date, periods))
    else None
  }

  function Or(cell: Option<Value>, row: Row, key: Column): Option<Value> {
    if cell.Some? then cell else Get(row, key)
  }

  function Get(row: Row, key: Column): Option<Value> { if key in row then Some(row[key]) else None }

  lemma {:induction false} SingleRowCells(db: Db, picks: seq<Pick>, codes: seq<string>, code: string, date: int,
      periods: map<string, Loaded<PeriodLoad.Date>>, key: Column)
    ensures Get(SingleRow(db, picks, codes, code, date, periods), key) ==
            Or(SingleCell(db, picks, codes, code, date, periods, key),
                BaseRow(code, LoadedOf(db.spine, All(), codes)), key)
  {
    SingleLastWrite(db, picks, |picks|, codes, code, date, periods, key);
    PutThenGet(BaseRow(code, LoadedOf(db.spine, All(), codes)), SingleWrites(db, picks, codes, code, date, periods),
        |picks|, key);
  }

  lemma {:induction false} MultiRowCells(db: Db, picks: seq<Pick>, codes: seq<string>, code: string, dates: seq<int>,
        key: Column)
    requires Registered(picks)
    ensures Get(MultiRow(db, picks, codes, code, dates), key) ==
            Or(MultiCell(db, picks, codes, code, dates, key), BaseRow(code, LoadedOf(db.spine, All(), codes)), key)
  {
    var specs := Specs(picks, |picks|, dates);
    LastSpecOfAll(picks, |picks|, dates, key);
    MultiLastWrite(db, picks, codes, code, specs, key, |specs|);
    PutThenGet(BaseRow(code, LoadedOf(db.spine, All(), codes)), MultiWrites(db, picks, codes, code, specs), |specs|,
        key);
  }

  /** Side by side, cell by cell: without period indicators, a multi-date row shows for each of its
      dates the cells of the single-date row at that date, price adjustment included. */
  lemma SideBySide(db: Db, picks: seq<Pick>, codes: seq<string>, code: string, dates: seq<int>, date: int, p: Pick)
    requires Registered(picks) && date in dates && p in picks && p.ref.freq != Period
    ensures var multi, single := MultiRow(db, picks, codes, code, dates),
            SingleRow(db, picks, codes, code, date, map[]);
            && Get(multi, StockCode) == Get(single, StockCode) == Some(Text(code, None))
            && Get(multi, Name) == Get(single, Name)
            && Get(single, Base(p.ref.id)).Some?
            && Get(multi, if p.ref.freq == Daily then Dated(p.ref.id, date) else Base(p.ref.id)) ==
                 Get(single, Base(p.ref.id))
  {
    var column := if p.ref.freq == Daily then Dated(p.ref.id, date) else Base(p.ref.id);
    Shown(picks, p);
    MultiRowCells(db, picks, codes, code, dates, StockCode);
    MultiRowCells(db, picks, codes, code, dates, Name);
    MultiRowCells(db, picks, codes, code, dates, column);
    SingleRowCells(db, picks, codes, code, date, map[], StockCode);
    SingleRowCells(db, picks, codes, code, date, map[], Name);
    SingleRowCells(db, picks, codes, code, date, map[], Base(p.ref.id));
  }

  /** A multi-date row has no other columns. */
  lemma MultiRowColumns(db: Db, picks: seq<Pick>, codes: seq<string>, code: string, dates: seq<int>, key: Column)
    requires Registered(picks) && Types(picks, Period) == {}
    ensures key in MultiRow(db, picks, codes, code, dates) <==>
            || key.StockCode? || key.Name?
            || exists p :: p in picks && ((p.ref.freq == Static && key == Base(p.ref.id))
                                         || (p.ref.freq == Daily && key.Dated? && key.id == p.ref.id
                                              && key.date in dates))
  {
    MultiRowCells(db, picks, codes, code, dates, key);
    assert forall p :: p in picks && p.ref.freq == Period ==> p.ref.dataType in Types(picks, Period);
    if key.Base? || key.Dated? {
      forall p | p in picks && p.ref.id == key.id ensures LastPick(picks, key.id, |picks|).Some?
                                                 && LastPick(picks, key.id, |picks|).value.ref == p.ref {
        Shown(picks, p);
      }
    }
  }
}
