/** The canonical schema of an interface: building it, checking it, and when its keys are columns. */
module CanonicalSchema {
  import opened Options

  // ----- Names -----

  /** The renaming tables (per interface, then identities, then reserved words) and how a column's
      type is inferred from a field's name. */
  datatype Tables = Tables(api: map<string, map<string, string>>, identities: map<string, string>,
    reserved: map<string, string>, infer: string -> string)

  /** The name of a field when its interface is not known. */
  function Global(tables: Tables, field: string): string {
    if field in tables.identities then tables.identities[field]
    else if field in tables.reserved then tables.reserved[field]
    else field
  }

  /** The column a field of an interface is stored in. */
  function Canonical(tables: Tables, api: string, field: string): string {
    if api in tables.api && field in tables.api[api] then tables.api[api][field] else Global(tables, field)
  }

  predicate EndsWith(s: string, tail: string) {
    |tail| <= |s| && s[|s| - |tail|..] == tail
  }

  predicate TextName(field: string) {
    field in {"introduction", "main_business", "business_scope", "desc", "description", "reason", "change_reason",
              "content", "summary", "holder_name"}
  }

  predicate DateName(field: string) {
    field in {"trade_date", "end_date", "ann_date", "list_date", "pre_date", "cal_date", "date"}
  }

  predicate NumberName(field: string) {
    field in {"open", "high", "low", "close", "vol", "amount", "revenue", "total_assets", "total_liab", "pe", "pb",
              "turnover_rate", "float_share"}
  }

  function InferType(field: string): string {
    if TextName(field) then "text"
    else if DateName(field) || EndsWith(field, "_date") then "date"
    else if NumberName(field) || EndsWith(field, "_vol") || EndsWith(field, "_amount") || EndsWith(field, "_ratio")
        || EndsWith(field, "_rate") then "number"
    else "string"
  }

  /** Names that end in _date are dates; those that end in _vol, _amount, _ratio or _rate are numbers. */
  lemma {:induction false} TypesBySuffix(prefix: string)
    ensures InferType(prefix + "_date") == "date"
    ensures InferType(prefix + "_vol") == "number" && InferType(prefix + "_amount") == "number"
    ensures InferType(prefix + "_ratio") == "number" && InferType(prefix + "_rate") == "number"
  {
    forall tail | tail in {"_date", "_vol", "_amount", "_ratio", "_rate"}
      ensures EndsWith(prefix + tail, tail) && !TextName(prefix + tail) {
      NoTextBySuffix(prefix, tail);
    }
    forall tail | tail in {"_vol", "_amount", "_ratio", "_rate"}
      ensures !DateName(prefix + tail) && !EndsWith(prefix + tail, "_date") {
      NoDateBySuffix(prefix, tail);
    }
  }

  lemma {:induction false} NoTextBySuffix(prefix: string, tail: string)
    requires tail in {"_date", "_vol", "_amount", "_ratio", "_rate"}
    ensures EndsWith(prefix + tail, tail) && !TextName(prefix + tail)
  {
    var s, n := prefix + tail, |prefix + tail|;
    assert s[|prefix|..] == tail;
    assert s[n - 1] == tail[|tail| - 1] && s[n - 2] == tail[|tail| - 2] && s[n - 3] == tail[|tail| - 3];
  }

  lemma {:induction false} NoDateBySuffix(prefix: string, tail: string)
    requires tail in {"_vol", "_amount", "_ratio", "_rate"}
    ensures !DateName(prefix + tail) && !EndsWith(prefix + tail, "_date")
  {
    var s, n := prefix + tail, |prefix + tail|;
    assert s[n - 1] == tail[|tail| - 1] && s[n - 4] == tail[|tail| - 4];
  }

  function Shipped(): Tables {
    Tables(
      map["daily" := map["change" := "change_amount"], "weekly" := map["change" := "change_amount"],
          "monthly" := map["change" := "change_amount"], "pro_bar" := map["change" := "change_amount"],
          "forecast" := map["type" := "fcst_type"], "fund_basic" := map["type" := "category_type"],
          "index_weight" := map["con_code" := "stock_code"], "index_member" := map["con_code" := "stock_code"]],
      map["ts_code" := "stock_code", "symbol" := "stock_code"],
      map["change" := "change_amount", "order" := "sort_order", "user" := "user_name"],
      InferType)
  }

  // ----- Unique keys -----

  /** The names that the key rules look for. */
  function KeyNames(): set<string> { {"stock_code", "trade_date", "end_date", "ann_date", "cal_date", "exchange"} }

  /** The field is there, under its own name or a name it is renamed from. */
  predicate Has(tables: Tables, fields: seq<string>, name: string) {
    name in fields || exists f :: f in fields && Global(tables, f) == name
  }

  predicate HasCode(tables: Tables, fields: seq<string>) {
    "ts_code" in fields || exists f :: f in fields && Global(tables, f) == "stock_code"
  }

  /** No rule applies: the first field has to do. */
  predicate LastResort(tables: Tables, fields: seq<string>) {
    !HasCode(tables, fields) && !Has(tables, fields, "trade_date") && !Has(tables, fields, "cal_date")
  }

  function UniqueKeys(tables: Tables, fields: seq<string>): (keys: seq<string>) {
    if HasCode(tables, fields) then
      if Has(tables, fields, "trade_date") then ["stock_code", "trade_date"]
      else if Has(tables, fields, "end_date") then ["stock_code", "end_date"]
      else if Has(tables, fields, "ann_date") then ["stock_code", "ann_date"]
      else ["stock_code"]
    else if Has(tables, fields, "trade_date") then ["trade_date"]
    else if Has(tables, fields, "cal_date") && Has(tables, fields, "exchange") then ["exchange", "cal_date"]
    else if Has(tables, fields, "cal_date") then ["cal_date"]
    else if fields != [] then [Global(tables, fields[0])]
    else ["id"]
  }

  /** An interface's own renaming comes before the others, an identity before a reserved word, and a
      field that none of them names keeps its name. */
  lemma {:induction false} RenamingsByPrecedence(tables: Tables, api: string, field: string)
    ensures api in tables.api && field in tables.api[api] ==>
              Canonical(tables, api, field) == tables.api[api][field]
    ensures api !in tables.api || field !in tables.api[api] ==>
              && (field in tables.identities ==> Canonical(tables, api, field) == tables.identities[field])
              && (field !in tables.identities && field in tables.reserved ==>
                   Canonical(tables, api, field) == tables.reserved[field])
              && (field !in tables.identities && field !in tables.reserved ==> Canonical(tables, api, field) == field)
  {
  }

  /** A name is there as a field or as what a field is renamed to. */
  ghost predicate There(tables: Tables, fields: seq<string>, name: string) {
    exists f :: f in fields && (f == name || Global(tables, f) == name)
  }

  ghost predicate CodeThere(tables: Tables, fields: seq<string>) {
    exists f :: f in fields && (f == "ts_code" || Global(tables, f) == "stock_code")
  }

  /** What the keys are, one by one: the code whenever it is there; the trade date whenever it is
      there; the end date and then the announcement date only with a code and without the dates
      before them; the calendar date, and the exchange with it, only without a code and a trade
      date. If that gives no key, the first field has to do, and without fields an id. */
  lemma {:induction false} UniqueKeysExactly(tables: Tables, fields: seq<string>, k: string)
    ensures var code, trade := CodeThere(tables, fields), There(tables, fields, "trade_date");
            var end, ann := There(tables, fields, "end_date"), There(tables, fields, "ann_date");
            var cal := There(tables, fields, "cal_date");
            if code || trade || cal then
              k in UniqueKeys(tables, fields) <==>
                || (k == "stock_code" && code)
                || (k == "trade_date" && trade)
                || (k == "end_date" && code && !trade && end)
                || (k == "ann_date" && code && !trade && !end && ann)
                || (k == "cal_date" && !code && !trade)
                || (k == "exchange" && !code && !trade && There(tables, fields, "exchange"))
            else UniqueKeys(tables, fields) == if fields == [] then ["id"] else [Global(tables, fields[0])]
    ensures UniqueKeys(tables, fields) != []
    ensures forall i, j :: 0 <= i < j < |UniqueKeys(tables, fields)| ==>
              UniqueKeys(tables, fields)[i] != UniqueKeys(tables, fields)[j]
  {
    CodeIsThere(tables, fields);
    forall name ensures Has(tables, fields, name) <==> There(tables, fields, name) {
      NameIsThere(tables, fields, name);
    }
    KeyNamesDiffer();
  }

  lemma {:induction false} NameIsThere(tables: Tables, fields: seq<string>, name: string)
    ensures Has(tables, fields, name) <==> There(tables, fields, name)
  {
    if There(tables, fields, name) { var f :| f in fields && (f == name || Global(tables, f) == name); }
    if name in fields { assert name in fields && (name == name || Global(tables, name) == name); }
  }

  lemma {:induction false} CodeIsThere(tables: Tables, fields: seq<string>)
    ensures HasCode(tables, fields) <==> CodeThere(tables, fields)
  {
    var ts := "ts_code";
    if ts in fields { assert ts in fields && (ts == "ts_code" || Global(tables, ts) == "stock_code"); }
  }

  lemma {:induction false} KeyNamesDiffer()
    ensures var names := ["stock_code", "trade_date", "end_date", "ann_date", "cal_date", "exchange"];
            forall i, j :: 0 <= i < j < 6 ==> names[i] != names[j]
  {
    assert "stock_code"[0] == 's' && "trade_date"[0] == 't' && "end_date"[1] == 'n' && "ann_date"[0] == 'a';
    assert "cal_date"[0] == 'c' && "exchange"[1] == 'x';
  }

  // ----- Building -----

  datatype Col = Col(key: string, fieldType: string, nullable: bool, apiField: string)

  /** What a schema says about itself. */
  datatype Standard = Standard(approved: bool, missing: nat, mismatch: nat)

  datatype Schema = Schema(columns: seq<Col>, uniqueKeys: seq<string>, mappings: map<string, string>,
    apiFields: seq<string>, standard: Standard)

  datatype Built = Ok(schema: Schema) | ValidationError

  function Keys(columns: seq<Col>): set<string> { set c | c in columns :: c.key }

  /** The columns of the first n fields: one for each name, from the first field with that name. */
  function Columns(tables: Tables, api: string, fields: seq<string>, uniqueKeys: seq<string>,
        n: nat): (columns: seq<Col>)
    requires n <= |fields|
    ensures |columns| <= n
  {
    if n == 0 then []
    else
      var before, field := Columns(tables, api, fields, uniqueKeys, n - 1), fields[n - 1];
      var key := Canonical(tables, api, field);
      if key in Keys(before) then before else before + [Col(key, tables.infer(field), key !in uniqueKeys, field)]
  }

  function Mappings(tables: Tables, api: string, fields: seq<string>): map<string, string> {
    map f | f in fields :: Canonical(tables, api, f)
  }

  function Fresh(tables: Tables, api: string, fields: seq<string>): Schema {
    var keys := UniqueKeys(tables, fields);
    Schema(Columns(tables, api, fields, keys, |fields|), keys, Mappings(tables, api, fields), fields,
        Standard(true, 0, 0))
  }

  lemma {:induction false} KeysGrow(columns: seq<Col>, col: Col)
    ensures Keys(columns + [col]) == Keys(columns) + {col.key}
  {
    assert forall c :: c in columns + [col] <==> c in columns || c == col;
  }

  lemma {:induction false} MappingStep(tables: Tables, api: string, fields: seq<string>, n: nat)
    requires n < |fields|
    ensures Mappings(tables, api, fields[..n + 1]) ==
            Mappings(tables, api, fields[..n])[fields[n] := Canonical(tables, api, fields[n])]
  {
    assert fields[..n + 1] == fields[..n] + [fields[n]];
  }

  /** The loop over the fields: a mapping for each one, and a column for each new name. */
  method MapFields(tables: Tables, api: string, fields: seq<string>)
        returns (mappings: map<string, string>, columns: seq<Col>)
    ensures mappings == Mappings(tables, api, fields) && columns == Columns(tables, api, fields, [], |fields|)
  {
    mappings, columns := map[], [];
    var seen: set<string> := {};
    for n := 0 to |fields|
      invariant mappings == Mappings(tables, api, fields[..n])
      invariant columns == Columns(tables, api, fields, [], n) && seen == Keys(columns)
    {
      var key := Canonical(tables, api, fields[n]);
      mappings := mappings[fields[n] := key];
      MappingStep(tables, api, fields, n);
      columns, seen := AddColumn(tables, api, fields, n, columns, seen);
    }
    assert fields[..|fields|] == fields;
  }

  method AddColumn(tables: Tables, api: string, fields: seq<string>, n: nat, columns: seq<Col>, seen: set<string>)
    returns (after: seq<Col>, seenAfter: set<string>)
    requires n < |fields| && columns == Columns(tables, api, fields, [], n) && seen == Keys(columns)
    ensures after == Columns(tables, api, fields, [], n + 1) && seenAfter == Keys(after)
  {
    var key := Canonical(tables, api, fields[n]);
    after, seenAfter := columns, seen;
    if key !in seen {
      var col := Col(key, tables.infer(fields[n]), true, fields[n]);
      KeysGrow(columns, col);
      seenAfter := seen + {key};
      after := columns + [col];
    }
  }

  method Build(tables: Tables, api: string, fields: seq<string>) returns (r: Built)
    ensures fields == [] ==> r == ValidationError
    ensures fields != [] ==> r == Ok(Fresh(tables, api, fields))
  {
    if fields == [] {
      return ValidationError;
    }
    var mappings, plain := MapFields(tables, api, fields);
    var uniqueKeys := UniqueKeys(tables, fields);
    var columns := MarkNullable(plain, uniqueKeys);
    NullabilityIsLast(tables, api, fields, uniqueKeys, |fields|);
    assert columns == Columns(tables, api, fields, uniqueKeys, |fields|);
    r := Ok(Schema(columns, uniqueKeys, mappings, fields, Standard(true, 0, 0)));
  }

  method MarkNullable(built: seq<Col>, uniqueKeys: seq<string>) returns (columns: seq<Col>)
    ensures |columns| == |built|
    ensures forall j :: 0 <= j < |built| ==> columns[j] == built[j].(nullable := built[j].key !in uniqueKeys)
  {
    columns := built;
    for i := 0 to |columns|
      invariant |columns| == |built|
      invariant forall j :: 0 <= j < i ==> columns[j] == built[j].(nullable := built[j].key !in uniqueKeys)
      invariant forall j :: i <= j < |built| ==> columns[j] == built[j]
    {
      columns := columns[i := columns[i].(nullable := columns[i].key !in uniqueKeys)];
    }
  }

  lemma {:induction false} NullabilityIsLast(tables: Tables, api: string, fields: seq<string>, uniqueKeys: seq<string>,
        n: nat)
    requires n <= |fields|
    ensures var plain, marked := Columns(tables, api, fields, [], n), Columns(tables, api, fields, uniqueKeys, n);
            && |plain| == |marked| && Keys(plain) == Keys(marked)
            && forall j :: 0 <= j < |plain| ==> marked[j] == plain[j].(nullable := plain[j].key !in uniqueKeys)
  {
    if 0 < n {
      NullabilityIsLast(tables, api, fields, uniqueKeys, n - 1);
      SameKeys(Columns(tables, api, fields, [], n), Columns(tables, api, fields, uniqueKeys, n));
    }
  }

  lemma {:induction false} SameKeys(a: seq<Col>, b: seq<Col>)
    requires |a| == |b| && forall j :: 0 <= j < |a| ==> a[j].key == b[j].key
    ensures Keys(a) == Keys(b)
  {
    forall k ensures k in Keys(a) <==> k in Keys(b) {
      if k in Keys(a) { var i :| 0 <= i < |a| && a[i].key == k; assert b[i] in b; }
      if k in Keys(b) { var i :| 0 <= i < |b| && b[i].key == k; assert a[i] in a; }
    }
  }

  // ----- Checking -----

  datatype Status = Matched | TypeMismatch | MissingInStandard

  /** The column of a key; of several, the last one. */
  function ColumnFor(columns: seq<Col>, key: string, n: nat): (col: Option<Col>)
    requires n <= |columns|
    ensures col.Some? ==> col.value in columns && col.value.key == key
    ensures col.None? ==> forall i :: 0 <= i < n ==> columns[i].key != key
  {
    if n == 0 then None else if columns[n - 1].key == key then Some(columns[n - 1]) else ColumnFor(columns, key, n - 1)
  }

  function KeyFor(tables: Tables, schema: Schema, field: string): string {
    if field in schema.mappings then schema.mappings[field] else Global(tables, field)
  }

  function StatusOf(tables: Tables, schema: Schema, field: string): Status {
    match ColumnFor(schema.columns, KeyFor(tables, schema, field), |schema.columns|)
    case None => MissingInStandard
    case Some(col) => if col.fieldType != tables.infer(field) && field == col.apiField then TypeMismatch else Matched
  }

  /** Column i is the last one of its key. */
  ghost predicate IsLastColumn(columns: seq<Col>, key: string, i: nat)
    requires i < |columns|
  {
    columns[i].key == key && forall j :: i < j < |columns| ==> columns[j].key != key
  }

  /** What the status of a field says about the columns. */
  lemma {:induction false} StatusSays(tables: Tables, schema: Schema, field: string)
    ensures var key := if field in schema.mappings then schema.mappings[field] else Global(tables, field);
            && (StatusOf(tables, schema, field) == MissingInStandard <==>
                 forall c :: c in schema.columns ==> c.key != key)
            && forall i :: 0 <= i < |schema.columns| && IsLastColumn(schema.columns, key, i) ==>
                 (StatusOf(tables, schema, field) == TypeMismatch <==>
                   schema.columns[i].apiField == field && schema.columns[i].fieldType != tables.infer(field))
  {
    var key := KeyFor(tables, schema, field);
    var col := ColumnFor(schema.columns, key, |schema.columns|);
    forall i | 0 <= i < |schema.columns| && IsLastColumn(schema.columns, key, i)
      ensures col == Some(schema.columns[i]) {
      ColumnForIsLast(schema.columns, key, |schema.columns|, i);
    }
    if col.None? {
      forall c | c in schema.columns ensures c.key != key {
        var i :| 0 <= i < |schema.columns| && schema.columns[i] == c;
      }
    }
  }

  lemma {:induction false} ColumnForIsLast(columns: seq<Col>, key: string, n: nat, i: nat)
    requires i < n <= |columns| && columns[i].key == key && forall j :: i < j < n ==> columns[j].key != key
    ensures ColumnFor(columns, key, n) == Some(columns[i])
  {
    if i < n - 1 { ColumnForIsLast(columns, key, n - 1, i); }
  }

  function CountStatus(tables: Tables, schema: Schema, status: Status, n: nat): nat
    requires n <= |schema.apiFields|
  {
    if n == 0 then 0
    else
      CountStatus(tables, schema, status, n - 1)
      + if StatusOf(tables, schema, schema.apiFields[n - 1]) == status then 1 else 0
  }

  /** Every field has one of the three statuses. */
  lemma {:induction false} StatusesAddUp(tables: Tables, schema: Schema, n: nat)
    requires n <= |schema.apiFields|
    ensures CountStatus(tables, schema, Matched, n) + CountStatus(tables, schema, TypeMismatch, n)
            + CountStatus(tables, schema, MissingInStandard, n) == n
  {
    if 0 < n { StatusesAddUp(tables, schema, n - 1); }
  }

  /** The keys that fields are matched to. */
  function MatchedKeys(tables: Tables, schema: Schema, n: nat): set<string>
    requires n <= |schema.apiFields|
  {
    set i | 0 <= i < n && StatusOf(tables, schema, schema.apiFields[i]) != MissingInStandard ::
        KeyFor(tables, schema, schema.apiFields[i])
  }

  predicate Extra(tables: Tables, schema: Schema, col: Col) {
    col.key !in MatchedKeys(tables, schema, |schema.apiFields|) && col.key !in schema.mappings.Values
  }

  /** A column is extra exactly when no field is stored in it. */
  lemma {:induction false} ExtraExactly(tables: Tables, schema: Schema, col: Col)
    requires col in schema.columns
    ensures Extra(tables, schema, col) <==>
            && (forall f :: f in schema.mappings ==> schema.mappings[f] != col.key)
            && forall f :: f in schema.apiFields && f !in schema.mappings ==> Global(tables, f) != col.key
  {
    forall f | f in schema.apiFields && KeyFor(tables, schema, f) == col.key
      ensures col.key in MatchedKeys(tables, schema, |schema.apiFields|) {
      StatusSays(tables, schema, f);
      var i :| 0 <= i < |schema.apiFields| && schema.apiFields[i] == f;
    }
    if v :| v in schema.mappings && schema.mappings[v] == col.key { assert col.key in schema.mappings.Values; }
  }

  function CountExtra(tables: Tables, schema: Schema, n: nat): nat
    requires n <= |schema.columns|
  {
    if n == 0 then 0 else CountExtra(tables, schema, n - 1) + if Extra(tables, schema, schema.columns[n - 1]) then 1
        else 0
  }

  /** As many as there are, between none and all. */
  lemma {:induction false} ExtrasAreCounted(tables: Tables, schema: Schema, n: nat)
    requires n <= |schema.columns|
    ensures CountExtra(tables, schema, n) <= n
    ensures CountExtra(tables, schema, n) == 0 <==>
              forall i :: 0 <= i < n ==> !Extra(tables, schema, schema.columns[i])
    ensures CountExtra(tables, schema, n) == n <==>
              forall i :: 0 <= i < n ==> Extra(tables, schema, schema.columns[i])
  {
    if 0 < n { ExtrasAreCounted(tables, schema, n - 1); }
  }

  datatype Counts = Counts(apiFields: nat, standardFields: nat, matched: nat, missing: nat, extra: nat, mismatch: nat,
    coverage: real)

  method CheckFields(tables: Tables, schema: Schema) returns (fields: seq<Status>, matchedKeys: set<string>)
    ensures |fields| == |schema.apiFields|
    ensures forall i :: 0 <= i < |fields| ==> fields[i] == StatusOf(tables, schema, schema.apiFields[i])
    ensures matchedKeys == MatchedKeys(tables, schema, |schema.apiFields|)
  {
    fields := [];
    matchedKeys := {};
    for i := 0 to |schema.apiFields|
      invariant |fields| == i
      invariant forall j :: 0 <= j < i ==> fields[j] == StatusOf(tables, schema, schema.apiFields[j])
      invariant matchedKeys == MatchedKeys(tables, schema, i)
    {
      var status := StatusOf(tables, schema, schema.apiFields[i]);
      if status != MissingInStandard {
        matchedKeys := matchedKeys + {KeyFor(tables, schema, schema.apiFields[i])};
      }
      fields := fields + [status];
    }
  }

  method CountFields(tables: Tables, schema: Schema, fields: seq<Status>, status: Status) returns (count: nat)
    requires |fields| == |schema.apiFields|
    requires forall i :: 0 <= i < |fields| ==> fields[i] == StatusOf(tables, schema, schema.apiFields[i])
    ensures count == CountStatus(tables, schema, status, |fields|)
  {
    count := 0;
    for i := 0 to |fields|
      invariant count == CountStatus(tables, schema, status, i)
    {
      if fields[i] == status {
        count := count + 1;
      }
    }
  }

  method CountExtras(tables: Tables, schema: Schema, matchedKeys: set<string>) returns (extra: nat)
    requires matchedKeys == MatchedKeys(tables, schema, |schema.apiFields|)
    ensures extra == CountExtra(tables, schema, |schema.columns|)
  {
    extra := 0;
    for i := 0 to |schema.columns|
      invariant extra == CountExtra(tables, schema, i)
    {
      if schema.columns[i].key !in matchedKeys && schema.columns[i].key !in schema.mappings.Values {
        extra := extra + 1;
      }
    }
  }

  function Tenths(n: int): real { n as real / 10.0 }

  /** Rounding to one decimal, halves to the even side. */
  function RoundTenth(x: real): real {
    var tenths := (10.0 * x).Floor;
    var rest := 10.0 * x - tenths as real;
    Tenths(if rest > 0.5 || (rest == 0.5 && tenths % 2 == 1) then tenths + 1 else tenths)
  }

  /** The rounded value is a whole number of tenths at most half a tenth away, and whole numbers of
      tenths stay as they are. */
  lemma {:induction false} RoundTenthIsNear(x: real, n: int)
    ensures -0.05 <= RoundTenth(x) - x <= 0.05
    ensures exists m: int :: RoundTenth(x) == Tenths(m)
    ensures x == Tenths(n) ==> RoundTenth(x) == x
    ensures x == Tenths(n) + 0.05 ==> RoundTenth(x) == Tenths(if n % 2 == 0 then n else n + 1)
  {
    if x == Tenths(n) || x == Tenths(n) + 0.05 { assert (10.0 * x).Floor == n; }
  }

  function Coverage(matched: nat, total: nat): real {
    if total == 0 then 0.0 else RoundTenth(matched as real / total as real * 100.0)
  }

  /** The coverage is the share of matched fields in percent, to one decimal; without fields it is 0. */
  lemma {:induction false} CoverageIsShare(matched: nat, total: nat)
    ensures total == 0 ==> Coverage(matched, total) == 0.0
    ensures 0 < total ==> -0.05 <= Coverage(matched, total) - matched as real / total as real * 100.0 <= 0.05
  {
    if 0 < total { RoundTenthIsNear(matched as real / total as real * 100.0, 0); }
  }

  /** The checklist, worked out from the schema alone. */
  method Checklist(tables: Tables, schema: Schema) returns (fields: seq<Status>, counts: Counts)
    ensures |fields| == |schema.apiFields|
    ensures forall i :: 0 <= i < |fields| ==> fields[i] == StatusOf(tables, schema, schema.apiFields[i])
    ensures counts.matched == CountStatus(tables, schema, Matched, |fields|)
    ensures counts.missing == CountStatus(tables, schema, MissingInStandard, |fields|)
    ensures counts.mismatch == CountStatus(tables, schema, TypeMismatch, |fields|)
    ensures counts.extra == CountExtra(tables, schema, |schema.columns|)
    ensures counts.apiFields == |fields| && counts.standardFields == |schema.columns|
    ensures counts.coverage == Coverage(counts.matched, |fields|)
  {
    var matchedKeys;
    fields, matchedKeys := CheckFields(tables, schema);
    var extra := CountExtras(tables, schema, matchedKeys);
    var matched := CountFields(tables, schema, fields, Matched);
    var missing := CountFields(tables, schema, fields, MissingInStandard);
    var mismatch := CountFields(tables, schema, fields, TypeMismatch);
    counts := Counts(|fields|, |schema.columns|, matched, missing, extra, mismatch, Coverage(matched, |fields|));
  }

  // ----- A fresh schema passes -----

  lemma {:induction false} ColumnsOfFields(tables: Tables, api: string, fields: seq<string>, uniqueKeys: seq<string>,
        n: nat, key: string)
    requires n <= |fields|
    ensures key in Keys(Columns(tables, api, fields, uniqueKeys, n)) <==>
              exists i :: 0 <= i < n && Canonical(tables, api, fields[i]) == key
  {
    if 0 < n {
      ColumnsOfFields(tables, api, fields, uniqueKeys, n - 1, key);
      KeysStep(tables, api, fields, uniqueKeys, n);
    }
  }

  lemma {:induction false} KeysStep(tables: Tables, api: string, fields: seq<string>, uniqueKeys: seq<string>, n: nat)
    requires 0 < n <= |fields|
    ensures Keys(Columns(tables, api, fields, uniqueKeys, n)) ==
            Keys(Columns(tables, api, fields, uniqueKeys, n - 1)) + {Canonical(tables, api, fields[n - 1])}
  {
    var before, field := Columns(tables, api, fields, uniqueKeys, n - 1), fields[n - 1];
    var key := Canonical(tables, api, field);
    KeysGrow(before, Col(key, tables.infer(field), key !in uniqueKeys, field));
  }

  /** Column i is that of the first field with its name. */
  lemma {:induction false} ColumnIsOfFirstField(tables: Tables, api: string, fields: seq<string>,
        uniqueKeys: seq<string>, n: nat, i: nat) returns (k: nat)
    requires n <= |fields| && i < |Columns(tables, api, fields, uniqueKeys, n)|
    ensures k < n && fields[k] == Columns(tables, api, fields, uniqueKeys, n)[i].apiField
    ensures forall j :: 0 <= j < k ==>
              Canonical(tables, api, fields[j]) != Columns(tables, api, fields, uniqueKeys, n)[i].key
  {
    var before := Columns(tables, api, fields, uniqueKeys, n - 1);
    if i < |before| {
      k := ColumnIsOfFirstField(tables, api, fields, uniqueKeys, n - 1, i);
    } else {
      k := n - 1;
      var key := Canonical(tables, api, fields[k]);
      assert key !in Keys(before);
      ColumnsOfFields(tables, api, fields, uniqueKeys, k, key);
    }
  }

  /** No two columns have one name. */
  lemma {:induction false} ColumnNamesDiffer(tables: Tables, api: string, fields: seq<string>,
        uniqueKeys: seq<string>, n: nat, i: nat, j: nat)
    requires n <= |fields| && i < j < |Columns(tables, api, fields, uniqueKeys, n)|
    ensures var columns := Columns(tables, api, fields, uniqueKeys, n); columns[i].key != columns[j].key
  {
    var before := Columns(tables, api, fields, uniqueKeys, n - 1);
    if j < |before| {
      ColumnNamesDiffer(tables, api, fields, uniqueKeys, n - 1, i, j);
    } else {
      assert before[i] in before;
    }
  }

  /** A column is that of one of the fields, with its inferred type; it may be null unless it is a key. */
  lemma {:induction false} ColumnIsOfField(tables: Tables, api: string, fields: seq<string>, uniqueKeys: seq<string>,
        n: nat, c: Col)
    requires n <= |fields| && c in Columns(tables, api, fields, uniqueKeys, n)
    ensures c.apiField in fields && c.key == Canonical(tables, api, c.apiField)
            && c.fieldType == tables.infer(c.apiField)
    ensures c.nullable <==> c.key !in uniqueKeys
  {
    if c in Columns(tables, api, fields, uniqueKeys,
        n - 1) { ColumnIsOfField(tables, api, fields, uniqueKeys, n - 1, c); }
  }

  lemma {:induction false} FreshFieldMatches(tables: Tables, api: string, fields: seq<string>, field: string)
    requires field in fields
    ensures StatusOf(tables, Fresh(tables, api, fields), field) == Matched
    ensures KeyFor(tables, Fresh(tables, api, fields), field) == Canonical(tables, api, field)
  {
    var schema := Fresh(tables, api, fields);
    var key := Canonical(tables, api, field);
    ColumnsOfFields(tables, api, fields, schema.uniqueKeys, |fields|, key);
    var i :| 0 <= i < |fields| && fields[i] == field;
    assert key in Keys(schema.columns);
    var col := ColumnFor(schema.columns, key, |schema.columns|);
    ColumnIsOfField(tables, api, fields, schema.uniqueKeys, |fields|, col.value);
  }

  lemma {:induction false} AllMatched(tables: Tables, schema: Schema, n: nat)
    requires n <= |schema.apiFields|
    requires forall f :: f in schema.apiFields ==> StatusOf(tables, schema, f) == Matched
    ensures CountStatus(tables, schema, Matched, n) == n
    ensures CountStatus(tables, schema, MissingInStandard, n) == CountStatus(tables, schema, TypeMismatch, n) == 0
  {
    if 0 < n { AllMatched(tables, schema, n - 1); }
  }

  lemma {:induction false} NoExtra(tables: Tables, schema: Schema, n: nat)
    requires n <= |schema.columns|
    requires forall c :: c in schema.columns ==> c.key in schema.mappings.Values
    ensures CountExtra(tables, schema, n) == 0
  {
    if 0 < n { NoExtra(tables, schema, n - 1); }
  }

  /** A freshly built schema passes the checklist: every field is matched, nothing is missing,
      mistyped or extra, whatever the tables and the fields. */
  lemma FreshSchemaPasses(tables: Tables, api: string, fields: seq<string>)
    ensures var schema := Fresh(tables, api, fields);
            && (forall f :: f in fields ==> StatusOf(tables, schema, f) == Matched)
            && CountStatus(tables, schema, Matched, |fields|) == |fields|
            && CountStatus(tables, schema, MissingInStandard, |fields|) == 0
            && CountStatus(tables, schema, TypeMismatch, |fields|) == 0
            && CountExtra(tables, schema, |schema.columns|) == 0
  {
    var schema := Fresh(tables, api, fields);
    forall f | f in fields ensures StatusOf(tables, schema, f) == Matched {
      FreshFieldMatches(tables, api, fields, f);
    }
    AllMatched(tables, schema, |fields|);
    forall c | c in schema.columns ensures c.key in schema.mappings.Values {
      ColumnIsOfField(tables, api, fields, schema.uniqueKeys, |fields|, c);
      assert schema.mappings[c.apiField] == c.key;
    }
    NoExtra(tables, schema, |schema.columns|);
  }

  lemma {:induction false} FullCoverage(n: nat)
    requires 0 < n
    ensures Coverage(n, n) == 100.0
  {
    assert n as real / n as real == 1.0;
    assert (10.0 * 100.0).Floor == 1000;
  }

  /** Building and checking: full coverage. */
  method BuildAndCheck(tables: Tables, api: string, fields: seq<string>) returns (r: Built, counts: Counts)
    requires fields != []
    ensures r.Ok?
    ensures counts.matched == counts.apiFields == |fields| && counts.missing == counts.extra == counts.mismatch == 0
    ensures counts.coverage == 100.0
  {
    r := Build(tables, api, fields);
    FreshSchemaPasses(tables, api, fields);
    FullCoverage(|fields|);
    counts := CountsOf(tables, r.schema);
  }

  method CountsOf(tables: Tables, schema: Schema) returns (counts: Counts)
    ensures var n := |schema.apiFields|;
            && counts.apiFields == n
            && counts.matched == CountStatus(tables, schema, Matched, n)
            && counts.missing == CountStatus(tables, schema, MissingInStandard, n)
            && counts.mismatch == CountStatus(tables, schema, TypeMismatch, n)
            && counts.extra == CountExtra(tables, schema, |schema.columns|)
            && counts.coverage == Coverage(counts.matched, n)
  {
    var statuses;
    statuses, counts := Checklist(tables, schema);
  }

  // ----- When the keys are columns -----

  /** No interface renames a field that the key rules look for, and a field that an interface
      renames leaves its global name unused. */
  ghost predicate Tame(tables: Tables) {
    && Global(tables, "ts_code") == "stock_code"
    && (forall k :: k in KeyNames() ==> Global(tables, k) == k)
    && (forall api, f :: Canonical(tables, api, f) != Global(tables, f) ==> Global(tables, f) !in KeyNames())
    && forall api, f, g :: Canonical(tables, api, f) != Global(tables, f) ==>
         Canonical(tables, api, g) != Global(tables, f)
  }

  /** Renamed by its interface to something else than without it. */
  predicate Renamed(tables: Tables, api: string, field: string) {
    Canonical(tables, api, field) != Global(tables, field)
  }

  lemma {:induction false} KeyIsColumn(tables: Tables, api: string, fields: seq<string>, uniqueKeys: seq<string>,
        f: string, name: string)
    requires Tame(tables) && f in fields && Global(tables, f) == name && name in KeyNames()
    ensures name in Keys(Columns(tables, api, fields, uniqueKeys, |fields|))
  {
    ColumnsOfFields(tables, api, fields, uniqueKeys, |fields|, name);
    var i :| 0 <= i < |fields| && fields[i] == f;
    assert Canonical(tables, api, fields[i]) == name;
  }

  lemma {:induction false} HasIsColumn(tables: Tables, api: string, fields: seq<string>, uniqueKeys: seq<string>,
        name: string)
    requires Tame(tables) && name in KeyNames() && Has(tables, fields, name)
    ensures name in Keys(Columns(tables, api, fields, uniqueKeys, |fields|))
  {
    if name in fields {
      KeyIsColumn(tables, api, fields, uniqueKeys, name, name);
    } else {
      var f :| f in fields && Global(tables, f) == name;
      KeyIsColumn(tables, api, fields, uniqueKeys, f, name);
    }
  }

  lemma {:induction false} CodeIsColumn(tables: Tables, api: string, fields: seq<string>, uniqueKeys: seq<string>)
    requires Tame(tables) && HasCode(tables, fields)
    ensures "stock_code" in Keys(Columns(tables, api, fields, uniqueKeys, |fields|))
  {
    if "ts_code" in fields {
      KeyIsColumn(tables, api, fields, uniqueKeys, "ts_code", "stock_code");
    } else {
      var f :| f in fields && Global(tables, f) == "stock_code";
      KeyIsColumn(tables, api, fields, uniqueKeys, f, "stock_code");
    }
  }

  lemma {:induction false} FirstFieldIsColumnExactly(tables: Tables, api: string, fields: seq<string>,
        uniqueKeys: seq<string>)
    requires Tame(tables) && fields != []
    ensures Global(tables, fields[0]) in Keys(Columns(tables, api, fields, uniqueKeys, |fields|)) <==>
            !Renamed(tables, api, fields[0])
  {
    ColumnsOfFields(tables, api, fields, uniqueKeys, |fields|, Global(tables, fields[0]));
  }

  lemma {:induction false} RuleKeyIsColumn(tables: Tables, api: string, fields: seq<string>, k: string)
    requires Tame(tables) && !LastResort(tables, fields) && k in UniqueKeys(tables, fields)
    ensures k in Keys(Columns(tables, api, fields, UniqueKeys(tables, fields), |fields|))
  {
    if HasCode(tables, fields) && k == "stock_code" {
      CodeIsColumn(tables, api, fields, UniqueKeys(tables, fields));
    } else {
      assert k in KeyNames() && Has(tables, fields, k);
      HasIsColumn(tables, api, fields, UniqueKeys(tables, fields), k);
    }
  }

  /** Every unique key of a fresh schema is a column, except exactly when no rule applies and the
      interface renames the first field. */
  lemma KeysAreColumnsExactly(tables: Tables, api: string, fields: seq<string>)
    requires Tame(tables) && fields != []
    ensures var schema := Fresh(tables, api, fields);
            (forall k :: k in schema.uniqueKeys ==> k in Keys(schema.columns)) <==>
            !(LastResort(tables, fields) && Renamed(tables, api, fields[0]))
  {
    var keys := UniqueKeys(tables, fields);
    if LastResort(tables, fields) {
      FirstFieldIsColumnExactly(tables, api, fields, keys);
      assert keys == [Global(tables, fields[0])];
      assert keys[0] in Fresh(tables, api, fields).uniqueKeys;
    } else {
      forall k | k in keys ensures k in Keys(Columns(tables, api, fields, keys, |fields|)) {
        RuleKeyIsColumn(tables, api, fields, k);
      }
    }
  }

  // ----- Ready for a table -----

  datatype DdlError =
    | NoColumns | NoUniqueKeys | Unmapped(field: string) | TargetNotColumn(field: string) | KeyNotColumn(key: string)
    | MissingFields | TypeMismatches | NotApproved

  /** The error is there. */
  predicate Justified(schema: Schema, error: DdlError) {
    match error
    case NoColumns => schema.columns == []
    case NoUniqueKeys => schema.uniqueKeys == []
    case Unmapped(f) => f in schema.apiFields && f !in schema.mappings
    case TargetNotColumn(f) => f in schema.apiFields && f in schema.mappings
        && schema.mappings[f] !in Keys(schema.columns)
    case KeyNotColumn(k) => k in schema.uniqueKeys && k !in Keys(schema.columns)
    case MissingFields => 0 < schema.standard.missing
    case TypeMismatches => 0 < schema.standard.mismatch
    case NotApproved => !schema.standard.approved
  }

  predicate Ready(schema: Schema) {
    && schema.columns != [] && schema.uniqueKeys != []
    && (forall f :: f in schema.apiFields ==> f in schema.mappings && schema.mappings[f] in Keys(schema.columns))
    && (forall k :: k in schema.uniqueKeys ==> k in Keys(schema.columns))
    && schema.standard.missing == schema.standard.mismatch == 0 && schema.standard.approved
  }

  /** The error is there, as far as the first i fields and the first j keys show. */
  ghost predicate Seen(schema: Schema, error: DdlError, i: nat, j: nat)
    requires i <= |schema.apiFields| && j <= |schema.uniqueKeys|
  {
    && Justified(schema, error)
    && (error.Unmapped? || error.TargetNotColumn? ==> error.field in schema.apiFields[..i])
    && (error.KeyNotColumn? ==> error.key in schema.uniqueKeys[..j])
    && !error.MissingFields? && !error.TypeMismatches? && !error.NotApproved?
  }

  /** The errors of the first fields, one after the other. */
  method CheckMappings(schema: Schema, found: seq<DdlError>) returns (errors: seq<DdlError>)
    requires forall e :: e in found <==> Seen(schema, e, 0, 0)
    ensures forall e :: e in errors <==> Seen(schema, e, |schema.apiFields|, 0)
  {
    var keys := Keys(schema.columns);
    errors := found;
    for i := 0 to |schema.apiFields|
      invariant forall e :: e in errors <==> Seen(schema, e, i, 0)
    {
      var f := schema.apiFields[i];
      assert schema.apiFields[..i + 1] == schema.apiFields[..i] + [f];
      if f !in schema.mappings {
        errors := errors + [Unmapped(f)];
      } else if schema.mappings[f] !in keys {
        errors := errors + [TargetNotColumn(f)];
      }
    }
  }

  method CheckKeys(schema: Schema, found: seq<DdlError>) returns (errors: seq<DdlError>)
    requires forall e :: e in found <==> Seen(schema, e, |schema.apiFields|, 0)
    ensures forall e :: e in errors <==> Seen(schema, e, |schema.apiFields|, |schema.uniqueKeys|)
  {
    var keys := Keys(schema.columns);
    errors := found;
    for j := 0 to |schema.uniqueKeys|
      invariant forall e :: e in errors <==> Seen(schema, e, |schema.apiFields|, j)
    {
      var k := schema.uniqueKeys[j];
      assert schema.uniqueKeys[..j + 1] == schema.uniqueKeys[..j] + [k];
      if k !in keys {
        errors := errors + [KeyNotColumn(k)];
      }
    }
  }

  /** The validation before a table is created: exactly the errors that are there, so none exactly
      for a ready schema. */
  method ValidateForDdl(schema: Schema) returns (errors: seq<DdlError>)
    ensures forall e :: e in errors <==> Justified(schema, e)
    ensures errors == [] <==> Ready(schema)
  {
    errors := if schema.columns == [] then [NoColumns] else [];
    if schema.uniqueKeys == [] {
      errors := errors + [NoUniqueKeys];
    }
    errors := CheckMappings(schema, errors);
    errors := CheckKeys(schema, errors);
    ghost var checked := errors;
    assert schema.apiFields[..|schema.apiFields|] == schema.apiFields;
    assert schema.uniqueKeys[..|schema.uniqueKeys|] == schema.uniqueKeys;
    if 0 < schema.standard.missing {
      errors := errors + [MissingFields];
    }
    if 0 < schema.standard.mismatch {
      errors := errors + [TypeMismatches];
    }
    if !schema.standard.approved {
      errors := errors + [NotApproved];
    }
    ReadyExactly(schema, errors);
  }

  lemma {:induction false} ReadyExactly(schema: Schema, errors: seq<DdlError>)
    requires forall e :: e in errors <==> Justified(schema, e)
    ensures errors == [] <==> Ready(schema)
  {
    if errors != [] {
      ErrorIsNotReady(schema, errors[0]);
    } else if !Ready(schema) {
      var e := SomeError(schema);
    }
  }

  lemma {:induction false} ErrorIsNotReady(schema: Schema, e: DdlError)
    requires Justified(schema, e)
    ensures !Ready(schema)
  {
  }

  lemma {:induction false} SomeError(schema: Schema) returns (e: DdlError)
    requires !Ready(schema)
    ensures Justified(schema, e)
  {
    if f :| f in schema.apiFields && !(f in schema.mappings && schema.mappings[f] in Keys(schema.columns)) {
      e := if f in schema.mappings then TargetNotColumn(f) else Unmapped(f);
    } else if k :| k in schema.uniqueKeys && k !in Keys(schema.columns) {
      e := KeyNotColumn(k);
    } else {
      e := if schema.columns == [] then NoColumns else if schema.uniqueKeys == [] then NoUniqueKeys
           else if 0 < schema.standard.missing then MissingFields
           else if 0 < schema.standard.mismatch then TypeMismatches else NotApproved;
    }
  }

  /** A fresh schema is ready for its table, with the same exception. */
  lemma FreshIsReadyExactly(tables: Tables, api: string, fields: seq<string>)
    requires Tame(tables) && fields != []
    ensures Ready(Fresh(tables, api, fields)) <==> !(LastResort(tables, fields) && Renamed(tables, api, fields[0]))
  {
    var schema := Fresh(tables, api, fields);
    KeysAreColumnsExactly(tables, api, fields);
    forall f | f in fields ensures f in schema.mappings && schema.mappings[f] in Keys(schema.columns) {
      FreshFieldMatches(tables, api, fields, f);
      assert StatusOf(tables, schema, f) != MissingInStandard;
    }
    assert fields[0] in fields && schema.columns != [];
  }

  lemma {:induction false} ShippedRenames(api: string, f: string)
    ensures Renamed(Shipped(), api, f) ==> (f == "type" || f == "con_code") && Global(Shipped(), f) == f
  {
  }

  /** A field keeps its name or gets a long one. */
  lemma {:induction false} ShippedNamesAreLong(api: string, g: string)
    ensures Canonical(Shipped(), api, g) == g || 9 <= |Canonical(Shipped(), api, g)|
  {
  }

  lemma {:induction false} ShippedKeyNames(k: string)
    requires k in KeyNames()
    ensures Global(Shipped(), k) == k && k != "type" && k != "con_code"
  {
    assert 8 <= |k| && (k[0] == 'c' ==> k[1] == 'a');
  }

  /** What the shipped tables rename, whatever the interface. */
  lemma {:induction false} ShippedNames(f: string)
    ensures Global(Shipped(), f) ==
            if f == "ts_code" || f == "symbol" then "stock_code"
            else if f == "change" then "change_amount"
            else if f == "order" then "sort_order"
            else if f == "user" then "user_name"
            else f
  {
  }

  /** And what single interfaces rename otherwise. */
  lemma {:induction false} ShippedOverrides(api: string, f: string)
    requires Renamed(Shipped(), api, f)
    ensures (api, f) in {("forecast", "type"), ("fund_basic", "type"), ("index_weight", "con_code"),
                         ("index_member", "con_code")}
  {
    ShippedRenames(api, f);
  }

  lemma {:induction false} ShippedOverrideNames()
    ensures Canonical(Shipped(), "forecast", "type") == "fcst_type"
    ensures Canonical(Shipped(), "fund_basic", "type") == "category_type"
    ensures Canonical(Shipped(), "index_weight", "con_code") == "stock_code"
    ensures Canonical(Shipped(), "index_member", "con_code") == "stock_code"
  {
  }

  lemma {:induction false} ShippedCode()
    ensures Global(Shipped(), "ts_code") == "stock_code"
  {
  }

  /** The shipped tables are such tables. */
  lemma ShippedTablesAreTame()
    ensures Tame(Shipped())
  {
    forall k | k in KeyNames() ensures Global(Shipped(), k) == k && k != "type" && k != "con_code" {
      ShippedKeyNames(k);
    }
    ShippedCode();
    forall api, f | Renamed(Shipped(), api, f) ensures Global(Shipped(), f) !in KeyNames() {
      ShippedRenames(api, f);
    }
    forall api, f, g | Renamed(Shipped(), api, f) ensures Canonical(Shipped(), api, g) != Global(Shipped(), f) {
      ShippedRenames(api, f);
      ShippedNamesAreLong(api, g);
    }
  }

  lemma {:induction false} ShippedForecastType()
    ensures Global(Shipped(), "type") == "type" && Canonical(Shipped(), "forecast", "type") == "fcst_type"
  {
  }

  lemma {:induction false} OneOtherField(tables: Tables, field: string)
    requires Global(tables, field) == field && |field| < 7
    ensures LastResort(tables, [field])
  {
  }

  /** The exception happens: the only field of a forecast is its type, which is stored as fcst_type. */
  lemma ForecastTypeIsNotReady()
    ensures !Ready(Fresh(Shipped(), "forecast", ["type"]))
  {
    var tables, fields := Shipped(), ["type"];
    ShippedTablesAreTame();
    ShippedForecastType();
    OneOtherField(tables, "type");
    assert |"type"| != |"fcst_type"|;
    FreshIsReadyExactly(tables, "forecast", fields);
  }
}
