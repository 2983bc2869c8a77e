/** Renaming the columns of fetched data to those of the schema, mapping by mapping. */
module ColumnRename {
  import opened Slices
  import opened StableSort

  /** One entry of the field mappings: a field and the column it is stored in. */
  datatype Mapping = Mapping(field: string, target: string)

  /** ts_code comes first, then the fields by name. */
  function Priority(): Mapping -> Key {
    (m: Mapping) => if m.field == "ts_code" then Number(0.0) else Text(m.field)
  }

  function InOrder(mappings: seq<Mapping>): seq<Mapping> { Sort(mappings, Priority(), false) }

  /** The mappings are a dictionary. */
  ghost predicate IsDict(mappings: seq<Mapping>) {
    forall i, j :: 0 <= i < j < |mappings| ==> mappings[i].field != mappings[j].field
  }

  ghost predicate Distinct(columns: seq<string>) {
    forall i, j :: 0 <= i < j < |columns| ==> columns[i] != columns[j]
  }

  /** The entry renames its field: the field is there, and the target is neither there nor taken. */
  predicate Takes(m: Mapping, columns: seq<string>, claimed: set<string>) {
    m.field in columns && m.field != m.target && m.target !in claimed && m.target !in columns
  }

  /** The renaming after the first n entries. */
  function Renaming(ordered: seq<Mapping>, columns: seq<string>, n: nat): map<string, string>
    requires n <= |ordered|
  {
    if n == 0 then map[]
    else
      var before := Renaming(ordered, columns, n - 1);
      if Takes(ordered[n - 1], columns, before.Values) then before[ordered[n - 1].field := ordered[n - 1].target]
          else before
  }

  function NewName(rename: map<string, string>, column: string): string {
    if column in rename then rename[column] else column
  }

  function Renamed(columns: seq<string>, rename: map<string, string>): (out: seq<string>)
    ensures |out| == |columns| && forall i :: 0 <= i < |columns| ==> out[i] == NewName(rename, columns[i])
  {
    seq(|columns|, i requires 0 <= i < |columns| => NewName(rename, columns[i]))
  }

  function RenamingOf(mappings: seq<Mapping>, columns: seq<string>): map<string, string> {
    Renaming(InOrder(mappings), columns, |InOrder(mappings)|)
  }

  function Output(mappings: seq<Mapping>, columns: seq<string>): seq<string> {
    Renamed(columns, RenamingOf(mappings, columns))
  }

  /** The renaming of a data frame; one without rows or columns is left alone. */
  method ApplyMappings(columns: seq<string>, rows: nat, mappings: seq<Mapping>) returns (out: seq<string>)
    requires IsDict(mappings)
    ensures out == if rows == 0 || columns == [] then columns else Output(mappings, columns)
  {
    if rows == 0 || columns == [] {
      return columns;
    }
    var rename: map<string, string> := map[];
    var claimed: set<string> := {};
    var ordered := InOrder(mappings);
    OrderIsDict(mappings);
    for n := 0 to |ordered|
      invariant rename == Renaming(ordered, columns, n)
      invariant claimed == rename.Values
    {
      var m := ordered[n];
      if m.field !in columns || m.field == m.target || m.target in claimed || m.target in columns {
        continue;
      }
      FieldIsNew(ordered, columns, n);
      AddedValue(rename, m.field, m.target);
      rename := rename[m.field := m.target];
      claimed := claimed + {m.target};
    }
    out := if rename == map[] then columns else Renamed(columns, rename);
    assert rename == map[] ==> Renamed(columns, rename) == columns;
  }

  lemma {:induction false} AddedValue(rename: map<string, string>, field: string, target: string)
    requires field !in rename
    ensures rename[field := target].Values == rename.Values + {target}
  {
    var after := rename[field := target];
    forall v | v in rename.Values + {target} ensures v in after.Values {
      if v == target {
        assert after[field] == v;
      } else {
        var k :| k in rename && rename[k] == v;
        assert after[k] == v;
      }
    }
  }

  // ----- The order -----

  lemma {:induction false} SameEntries(mappings: seq<Mapping>, m: Mapping)
    ensures m in InOrder(mappings) <==> m in mappings
  {
    SortPermutes(mappings, Priority(), false);
    assert m in InOrder(mappings) <==> m in multiset(InOrder(mappings));
    assert m in mappings <==> m in multiset(mappings);
  }

  /** Sorting keeps it a dictionary. */
  lemma {:induction false} OrderIsDict(mappings: seq<Mapping>)
    requires IsDict(mappings)
    ensures IsDict(InOrder(mappings))
  {
    var ordered := InOrder(mappings);
    SortPermutes(mappings, Priority(), false);
    ReorderedDiffer(mappings, ordered);
    forall i, j | 0 <= i < j < |ordered| ensures ordered[i].field != ordered[j].field {
      SameEntries(mappings, ordered[i]);
      SameEntries(mappings, ordered[j]);
    }
  }

  /** One entry is looked at before another. */
  predicate GoesFirst(p: Mapping, m: Mapping) { KeyLess(Priority()(p), Priority()(m)) }

  lemma {:induction false} OneGoesFirst(p: Mapping, m: Mapping)
    ensures !(GoesFirst(p, m) && GoesFirst(m, p))
    ensures GoesFirst(p, m) || GoesFirst(m, p) <==> p.field != m.field
  {
    KeyOrder(Priority()(p), Priority()(m), Null);
  }

  /** The place in the sorted dictionary is the order of the entries. */
  lemma {:induction false} PlaceIsOrder(mappings: seq<Mapping>, i: nat, j: nat)
    requires IsDict(mappings) && i < |InOrder(mappings)| && j < |InOrder(mappings)|
    ensures GoesFirst(InOrder(mappings)[i], InOrder(mappings)[j]) <==> i < j
  {
    var ordered := InOrder(mappings);
    SortSorts(mappings, Priority(), false);
    OrderIsDict(mappings);
    OneGoesFirst(ordered[i], ordered[j]);
    if i < j {
      assert !Precedes(Priority()(ordered[j]), Priority()(ordered[i]), false);
    } else if j < i {
      assert !Precedes(Priority()(ordered[i]), Priority()(ordered[j]), false);
    }
  }

  // ----- Nothing is lost or doubled -----

  lemma {:induction false} FieldIsNew(ordered: seq<Mapping>, columns: seq<string>, n: nat)
    requires IsDict(ordered) && n < |ordered|
    ensures ordered[n].field !in Renaming(ordered, columns, n)
  {
    FieldsAreEarlier(ordered, columns, n, ordered[n].field);
  }

  lemma {:induction false} FieldsAreEarlier(ordered: seq<Mapping>, columns: seq<string>, n: nat, f: string)
    requires n <= |ordered|
    ensures f in Renaming(ordered, columns, n) ==>
              f in columns && Renaming(ordered, columns, n)[f] !in columns
              && exists i :: 0 <= i < n && ordered[i].field == f
                   && ordered[i].target == Renaming(ordered, columns, n)[f]
  {
    if 0 < n { FieldsAreEarlier(ordered, columns, n - 1, f); }
  }

  /** No two fields are renamed alike, and no field to a column that is there. */
  lemma {:induction false} RenamingIsInjective(ordered: seq<Mapping>, columns: seq<string>, n: nat, f: string,
        g: string)
    requires IsDict(ordered) && n <= |ordered|
    requires f in Renaming(ordered, columns, n) && g in Renaming(ordered, columns, n) && f != g
    ensures Renaming(ordered, columns, n)[f] != Renaming(ordered, columns, n)[g]
  {
    var before, now := Renaming(ordered, columns, n - 1), Renaming(ordered, columns, n);
    FieldIsNew(ordered, columns, n - 1);
    if f in before && g in before {
      RenamingIsInjective(ordered, columns, n - 1, f, g);
    } else if f in before {
      assert before[f] in before.Values;
    } else {
      assert before[g] in before.Values;
    }
  }

  /** Renaming keeps every column in its place, and distinct columns distinct. */
  lemma DistinctStaysDistinct(mappings: seq<Mapping>, columns: seq<string>)
    requires IsDict(mappings) && Distinct(columns)
    ensures |Output(mappings, columns)| == |columns| && Distinct(Output(mappings, columns))
  {
    var ordered := InOrder(mappings);
    var rename := Renaming(ordered, columns, |ordered|);
    OrderIsDict(mappings);
    forall i, j | 0 <= i < j < |columns| ensures NewName(rename, columns[i]) != NewName(rename, columns[j]) {
      FieldsAreEarlier(ordered, columns, |ordered|, columns[i]);
      FieldsAreEarlier(ordered, columns, |ordered|, columns[j]);
      if columns[i] in rename && columns[j] in rename {
        RenamingIsInjective(ordered, columns, |ordered|, columns[i], columns[j]);
      }
    }
  }

  /** A target that is not a column and has a field that is gets taken by one. */
  lemma {:induction false} TargetIsTaken(ordered: seq<Mapping>, columns: seq<string>, n: nat, i: nat)
    requires IsDict(ordered) && i < n <= |ordered|
    requires ordered[i].field in columns && ordered[i].target !in columns
    ensures ordered[i].target in Renaming(ordered, columns, n).Values
  {
    FieldIsNew(ordered, columns, n - 1);
    var before := Renaming(ordered, columns, n - 1);
    AddedValue(before, ordered[n - 1].field, ordered[n - 1].target);
    if i < n - 1 { TargetIsTaken(ordered, columns, n - 1, i); }
  }

  /** The entry is the first one for its target whose field is there, and the target is not. */
  ghost predicate WinsAt(ordered: seq<Mapping>, columns: seq<string>, i: nat)
    requires i < |ordered|
  {
    && ordered[i].field in columns && ordered[i].target !in columns
    && forall j :: 0 <= j < i && ordered[j].target == ordered[i].target ==> ordered[j].field !in columns
  }

  lemma {:induction false} TakesExactly(ordered: seq<Mapping>, columns: seq<string>, i: nat)
    requires IsDict(ordered) && i < |ordered|
    ensures Takes(ordered[i], columns, Renaming(ordered, columns, i).Values) <==> WinsAt(ordered, columns, i)
  {
    var before, t := Renaming(ordered, columns, i), ordered[i].target;
    if t in before.Values {
      var f :| f in before && before[f] == t;
      FieldsAreEarlier(ordered, columns, i, f);
    }
    forall j | 0 <= j < i && ordered[j].target == t && ordered[j].field in columns && t !in columns
        ensures t in before.Values {
      TargetIsTaken(ordered, columns, i, j);
    }
  }

  lemma {:induction false} RenamedByWinner(ordered: seq<Mapping>, columns: seq<string>, n: nat, f: string)
    requires IsDict(ordered) && n <= |ordered|
    ensures f in Renaming(ordered, columns, n) <==>
              exists i :: 0 <= i < n && ordered[i].field == f && WinsAt(ordered, columns, i)
  {
    if 0 < n {
      RenamedByWinner(ordered, columns, n - 1, f);
      TakesExactly(ordered, columns, n - 1);
    }
  }

  /** The same on the dictionary itself: the entry's field is there, its target is not, and it goes
      before every other entry for that target whose field is there. */
  ghost predicate Wins(m: Mapping, mappings: seq<Mapping>, columns: seq<string>) {
    && m.field in columns && m.target !in columns
    && forall p :: p in mappings && p.target == m.target && p.field in columns && p.field != m.field ==> GoesFirst(m, p)
  }

  lemma {:induction false} WinsIsWinsAt(mappings: seq<Mapping>, columns: seq<string>, i: nat)
    requires IsDict(mappings) && i < |InOrder(mappings)|
    ensures WinsAt(InOrder(mappings), columns, i) <==> Wins(InOrder(mappings)[i], mappings, columns)
  {
    var ordered := InOrder(mappings);
    OrderIsDict(mappings);
    if WinsAt(ordered, columns, i) {
      forall p | p in mappings && p.target == ordered[i].target && p.field in columns && p.field != ordered[i].field
        ensures GoesFirst(ordered[i], p) {
        SameEntries(mappings, p);
        var j :| 0 <= j < |ordered| && ordered[j] == p;
        PlaceIsOrder(mappings, i, j);
      }
    } else if Wins(ordered[i], mappings, columns) {
      var j :| 0 <= j < i && ordered[j].target == ordered[i].target && ordered[j].field in columns;
      SameEntries(mappings, ordered[j]);
      PlaceIsOrder(mappings, i, j);
    }
  }

  /** A field is renamed exactly when its entry wins. */
  lemma RenamedExactly(mappings: seq<Mapping>, columns: seq<string>, f: string)
    requires IsDict(mappings)
    ensures f in RenamingOf(mappings, columns) <==>
              exists m :: m in mappings && m.field == f && Wins(m, mappings, columns)
  {
    var ordered := InOrder(mappings);
    OrderIsDict(mappings);
    RenamedByWinner(ordered, columns, |ordered|, f);
    if f in RenamingOf(mappings, columns) {
      var i :| 0 <= i < |ordered| && ordered[i].field == f && WinsAt(ordered, columns, i);
      WinsIsWinsAt(mappings, columns, i);
      SameEntries(mappings, ordered[i]);
    }
    if m :| m in mappings && m.field == f && Wins(m, mappings, columns) {
      SameEntries(mappings, m);
      var i :| 0 <= i < |ordered| && ordered[i] == m;
      WinsIsWinsAt(mappings, columns, i);
    }
  }

  lemma {:induction false} KeptUnlessRenamed(mappings: seq<Mapping>, columns: seq<string>, m: Mapping)
    requires IsDict(mappings) && m in mappings && m.field in columns
    ensures m.target in Output(mappings, columns) <==>
            !(m.target in columns && m.target in RenamingOf(mappings, columns))
  {
    var ordered := InOrder(mappings);
    var rename := RenamingOf(mappings, columns);
    OrderIsDict(mappings);
    if m.target in columns {
      var k :| 0 <= k < |columns| && columns[k] == m.target;
      if m.target in rename {
        forall i | 0 <= i < |columns| ensures NewName(rename, columns[i]) != m.target {
          FieldsAreEarlier(ordered, columns, |ordered|, columns[i]);
        }
      } else {
        assert Output(mappings, columns)[k] == m.target;
      }
    } else {
      SameEntries(mappings, m);
      var i :| 0 <= i < |ordered| && ordered[i] == m;
      TargetIsTaken(ordered, columns, |ordered|, i);
      var f :| f in rename && rename[f] == m.target;
      FieldsAreEarlier(ordered, columns, |ordered|, f);
      var k :| 0 <= k < |columns| && columns[k] == f;
      assert Output(mappings, columns)[k] == m.target;
    }
  }

  /** A target with a field that is there is in the output, except exactly when it is a column
      already and the mapping of that column wins a name of its own. */
  lemma TargetIsKeptExactly(mappings: seq<Mapping>, columns: seq<string>, m: Mapping)
    requires IsDict(mappings) && m in mappings && m.field in columns
    ensures m.target !in Output(mappings, columns) <==>
            exists p :: p in mappings && p.field == m.target && Wins(p, mappings, columns)
  {
    KeptUnlessRenamed(mappings, columns, m);
    RenamedExactly(mappings, columns, m.target);
  }

  /** So no target is lost when targets map to themselves, if to anything. */
  lemma SelfMappedTargetsAreKept(mappings: seq<Mapping>, columns: seq<string>, m: Mapping)
    requires IsDict(mappings) && m in mappings && m.field in columns
    requires forall p :: p in mappings && p.field == m.target ==> p.target == m.target
    ensures m.target in Output(mappings, columns)
  {
    TargetIsKeptExactly(mappings, columns, m);
  }

  /** A target that does not map to itself can be lost: with a to b and b to c, the columns a and b
      become a and c. */
  lemma ChainLosesATarget()
    ensures Output([Mapping("a", "b"), Mapping("b", "c")], ["a", "b"]) == ["a", "c"]
  {
    var ab, bc := Mapping("a", "b"), Mapping("b", "c");
    var columns := ["a", "b"];
    assert [ab, bc][1..] == [bc] && [bc][1..] == [];
    assert Sort([bc], Priority(), false) == [bc];
    assert "b" != "a" && "c" != "b" && "c" != "a" && "a" != "ts_code" && "b" != "ts_code";
    assert InOrder([ab, bc]) == [ab, bc];
    assert Renaming([ab, bc], columns, 1) == map[];
    assert Renaming([ab, bc], columns, 2) == map["b" := "c"];
  }

  /** Among several fields for a target that is not a column yet, ts_code wins. */
  lemma TsCodeWins(mappings: seq<Mapping>, columns: seq<string>, m: Mapping)
    requires IsDict(mappings) && m in mappings && m.field == "ts_code" && m.field in columns && m.target !in columns
    ensures "ts_code" in RenamingOf(mappings, columns) && RenamingOf(mappings, columns)["ts_code"] == m.target
  {
    var ordered := InOrder(mappings);
    OrderIsDict(mappings);
    SameEntries(mappings, m);
    var i :| 0 <= i < |ordered| && ordered[i] == m;
    if 0 < i {
      PlaceIsOrder(mappings, 0, i);
    }
    assert Renaming(ordered, columns, 1) == map["ts_code" := m.target];
    TsCodeStays(ordered, columns, |ordered|);
  }

  lemma {:induction false} TsCodeStays(ordered: seq<Mapping>, columns: seq<string>, n: nat)
    requires IsDict(ordered) && 1 <= n <= |ordered| && ordered[0].field in Renaming(ordered, columns, 1)
    ensures ordered[0].field in Renaming(ordered, columns, n)
    ensures Renaming(ordered, columns, n)[ordered[0].field] == ordered[0].target
  {
    if 1 < n { TsCodeStays(ordered, columns, n - 1); }
  }
}
