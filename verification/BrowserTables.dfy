/** The tables behind the wide query, daily and static ones, and loading them in batches of codes. */
module BrowserTables {
  import opened Options
  import Slices

  const CODE_BATCH_SIZE: nat := 500

  /** A cell as it is read: text may still be read as a number by float(). */
  datatype Value = Null | Num(x: real) | Text(s: string, number: Option<real>)

  function Float(v: Value): Option<real> {
    match v
    case Null => None
    case Num(x) => Some(x)
    case Text(_, number) => number
  }

  /** One table row: its code, its date (if its table is dated) and its cells. */
  datatype Rec<D> = Rec(code: string, date: D, cells: map<string, Value>)

  /** The rows of a code that a query selects; the last one of the first n. */
  function LastRec<D>(table: seq<Rec<D>>, picks: Rec<D> -> bool, code: string, n: nat): (last: Option<Rec<D>>)
    requires n <= |table|
    ensures last.Some? ==> last.value in table && last.value.code == code && picks(last.value)
  {
    if n == 0 then None
    else if table[n - 1].code == code && picks(table[n - 1]) then Some(table[n - 1])
    else LastRec(table, picks, code, n - 1)
  }

  type Loaded<D> = map<string, Rec<D>>

  /** What a load returns, without batches: for each code asked for, its last selected row. */
  function LoadedOf<D>(table: seq<Rec<D>>, picks: Rec<D> -> bool, codes: seq<string>): Loaded<D> {
    map code | code in codes && LastRec(table, picks, code, |table|).Some? :: LastRec(table, picks, code, |table|).value
  }

  /** Row i is the last row of the code that is selected. */
  ghost predicate IsLast<D>(table: seq<Rec<D>>, picks: Rec<D> -> bool, code: string, i: nat)
    requires i < |table|
  {
    && table[i].code == code && picks(table[i])
    && forall j :: i < j < |table| ==> !(table[j].code == code && picks(table[j]))
  }

  lemma {:induction false} LastRecIsLast<D>(table: seq<Rec<D>>, picks: Rec<D> -> bool, code: string, n: nat)
    requires n <= |table|
    ensures var last := LastRec(table, picks, code, n);
            if last.None? then forall j :: 0 <= j < n ==> !(table[j].code == code && picks(table[j]))
            else exists i :: 0 <= i < n && table[i] == last.value && table[i].code == code && picks(table[i])
                   && forall j :: i < j < n ==> !(table[j].code == code && picks(table[j]))
  {
    if 0 < n { LastRecIsLast(table, picks, code, n - 1); }
  }

  /** What a load holds, read off the table: for each code asked for its last selected row, if any. */
  lemma {:induction false} LoadedIsLast<D>(table: seq<Rec<D>>, picks: Rec<D> -> bool, codes: seq<string>, code: string)
    ensures var loaded := LoadedOf(table, picks, codes);
            && (code in loaded ==> code in codes)
            && (code in loaded ==>
                  exists i :: 0 <= i < |table| && table[i] == loaded[code] && IsLast(table, picks, code, i))
            && (code in codes && code !in loaded ==>
                  forall j :: 0 <= j < |table| ==> !(table[j].code == code && picks(table[j])))
  {
    LastRecIsLast(table, picks, code, |table|);
    var last := LastRec(table, picks, code, |table|);
    if last.Some? {
      var i :| 0 <= i < |table| && table[i] == last.value && table[i].code == code && picks(table[i])
        && forall j :: i < j < |table| ==> !(table[j].code == code && picks(table[j]));
      assert IsLast(table, picks, code, i);
    }
  }

  /** So the last selected row of a code that is asked for is the one that is loaded. */
  lemma {:induction false} LastIsLoaded<D>(table: seq<Rec<D>>, picks: Rec<D> -> bool, codes: seq<string>, code: string,
      i: nat)
    requires code in codes && i < |table| && IsLast(table, picks, code, i)
    ensures code in LoadedOf(table, picks, codes) && LoadedOf(table, picks, codes)[code] == table[i]
  {
    LoadedIsLast(table, picks, codes, code);
    var k :| 0 <= k < |table| && table[k] == LoadedOf(table, picks, codes)[code] && IsLast(table, picks, code, k);
  }

  ghost predicate HoldsLast<D>(out: Loaded<D>, table: seq<Rec<D>>, picks: Rec<D> -> bool, codes: set<string>) {
    && (forall c :: c in out ==> c in codes)
    && forall c :: c in codes ==>
         LastRec(table, picks, c, |table|) == if c in out then Some(out[c]) else None
  }

  /** One batch: the rows of its codes, one after the other; a later row of a code replaces an earlier one. */
  method LoadBatch<D>(before: Loaded<D>, table: seq<Rec<D>>, picks: Rec<D> -> bool, batch: seq<string>,
        ghost done: set<string>)
    returns (out: Loaded<D>)
    requires HoldsLast(before, table, picks, done)
    ensures HoldsLast(out, table, picks, done + (set c | c in batch))
  {
    out := before;
    ghost var codes := done + (set c | c in batch);
    for n := 0 to |table|
      invariant forall c :: c in out ==> c in codes
      invariant forall c :: c in batch && LastRec(table, picks, c, n).Some? ==>
                  c in out && out[c] == LastRec(table, picks, c, n).value
      invariant forall c :: !(c in batch && LastRec(table, picks, c, n).Some?) ==> (c in out <==> c in before)
      invariant forall c :: !(c in batch && LastRec(table, picks, c, n).Some?) && c in before ==>
                  c in out && out[c] == before[c]
    {
      if table[n].code in batch && picks(table[n]) {
        out := out[table[n].code := table[n]];
      }
    }
    forall c | c in codes ensures LastRec(table, picks, c, |table|) == if c in out then Some(out[c]) else None {
      if c !in done && LastRec(table, picks, c, |table|).None? { assert c !in before; }
    }
  }

  /** Loading in batches of five hundred codes: the batches, repeated codes among them included,
      leave no trace. */
  method Load<D>(table: seq<Rec<D>>, picks: Rec<D> -> bool, codes: seq<string>) returns (out: Loaded<D>)
    ensures out == LoadedOf(table, picks, codes)
  {
    out := map[];
    var i := 0;
    ghost var done: set<string> := {};
    while i < |codes|
      invariant forall c :: c in done <==> exists k :: 0 <= k < i && k < |codes| && codes[k] == c
      invariant HoldsLast(out, table, picks, done)
      decreases |codes| - i
    {
      var batch := codes[i..Slices.Upto(i + CODE_BATCH_SIZE, |codes|)];
      out := LoadBatch(out, table, picks, batch, done);
      done := done + (set c | c in batch);
      forall c ensures c in done <==> exists k :: 0 <= k < i + CODE_BATCH_SIZE && k < |codes| && codes[k] == c {
        BatchMembers(codes, i, c);
      }
      i := i + CODE_BATCH_SIZE;
    }
    assert forall c :: c in done <==> c in codes;
  }

  lemma {:induction false} BatchMembers(codes: seq<string>, i: nat, c: string)
    requires i < |codes|
    ensures c in codes[i..Slices.Upto(i + CODE_BATCH_SIZE, |codes|)] <==>
            exists k :: i <= k < i + CODE_BATCH_SIZE && k < |codes| && codes[k] == c
  {
    var batch := codes[i..Slices.Upto(i + CODE_BATCH_SIZE, |codes|)];
    assert forall k :: 0 <= k < |batch| ==> batch[k] == codes[i + k];
    if k :| i <= k < i + CODE_BATCH_SIZE && k < |codes| && codes[k] == c {
      assert batch[k - i] == c;
    }
  }

  /** A cell of a loaded table; a missing row or column reads as null. */
  function Cell<D>(loaded: Loaded<D>, code: string, column: string): Value {
    if code in loaded && column in loaded[code].cells then loaded[code].cells[column] else Null
  }
}
