/** Point-in-time reports: for each code the report with the greatest date not after the as-of date. */
module PeriodLoad {
  import opened Options
  import opened BrowserTables
  import Slices
  import opened Strings

  datatype Ymd = Ymd(y: nat, m: nat, d: nat)

  type Date = p: Ymd | 1 <= p.y <= 9999 && 1 <= p.m <= 12 && 1 <= p.d <= 31 witness Ymd(1, 1, 1)

  predicate Earlier(a: Date, b: Date) {
    a.y < b.y || (a.y == b.y && (a.m < b.m || (a.m == b.m && a.d < b.d)))
  }

  // ----- Dates as text -----

  /** A date as YYYY-MM-DD. */
  function Iso(a: Date): string {
    Two(a.y / 100) + (Two(a.y % 100) + ("-" + (Two(a.m) + ("-" + Two(a.d)))))
  }

  lemma {:induction false} TwoOrder(a: nat, b: nat)
    requires a < 100 && b < 100
    ensures Less(Two(a), Two(b)) <==> a < b
    ensures Two(a) == Two(b) <==> a == b
  {
    var s, t := Two(a), Two(b);
    assert s[1..] == ['0' + (a % 10) as char] && t[1..] == ['0' + (b % 10) as char];
    assert Less(s, t) <==> s[0] < t[0] || (s[0] == t[0] && Less(s[1..], t[1..]));
    assert Less(s[1..], t[1..]) <==> s[1] < t[1] by { assert s[1..][1..] == [] == t[1..][1..]; }
    assert a == a / 10 * 10 + a % 10 && b == b / 10 * 10 + b % 10;
  }

  /** Text with heads of one length compares by the heads first. */
  lemma {:induction false} HeadFirst(x: string, y: string, s: string, t: string)
    requires |x| == |y|
    ensures Less(x + s, y + t) <==> Less(x, y) || (x == y && Less(s, t))
    decreases |x|
  {
    if x == [] {
      assert x + s == s && y + t == t;
    } else {
      HeadFirst(x[1..], y[1..], s, t);
      assert (x + s)[1..] == x[1..] + s && (y + t)[1..] == y[1..] + t;
      assert x == [x[0]] + x[1..] && y == [y[0]] + y[1..];
    }
  }

  /** Comparing dates as text is comparing dates. */
  lemma {:induction false} IsoOrder(a: Date, b: Date)
    ensures Less(Iso(a), Iso(b)) <==> Earlier(a, b)
  {
    var (a5, b5) := (Two(a.d), Two(b.d));
    var (a4, b4) := ("-" + a5, "-" + b5);
    var (a3, b3) := (Two(a.m) + a4, Two(b.m) + b4);
    var (a2, b2) := ("-" + a3, "-" + b3);
    var (a1, b1) := (Two(a.y % 100) + a2, Two(b.y % 100) + b2);
    TwoOrder(a.d, b.d);
    TwoOrder(a.m, b.m);
    TwoOrder(a.y % 100, b.y % 100);
    TwoOrder(a.y / 100, b.y / 100);
    HeadFirst("-", "-", a5, b5);
    HeadFirst(Two(a.m), Two(b.m), a4, b4);
    HeadFirst("-", "-", a3, b3);
    HeadFirst(Two(a.y % 100), Two(b.y % 100), a2, b2);
    HeadFirst(Two(a.y / 100), Two(b.y / 100), a1, b1);
    LessTrichotomy("-", "-");
  }

  // ----- Selecting reports -----

  /** What the query selects: reports up to the as-of date, and of one date when dates are unified. */
  function UpTo(asOf: Date, unified: Option<Date>): Rec<Date> -> bool {
    (r: Rec<Date>) => !Earlier(asOf, r.date) && (unified.Some? ==> r.date == unified.value)
  }

  /** The best of the first n rows of a code: a later row replaces it only when its date is greater. */
  function Best(table: seq<Rec<Date>>, picks: Rec<Date> -> bool, code: string, n: nat): Option<Rec<Date>>
    requires n <= |table|
  {
    if n == 0 then None
    else
      var best, r := Best(table, picks, code, n - 1), table[n - 1];
      if r.code == code && picks(r) && (best.None? || Earlier(best.value.date, r.date)) then Some(r) else best
  }

  /** The best report has the greatest date of all selected ones, and is the first with that date. */
  lemma {:induction false} BestIsFirstGreatest(table: seq<Rec<Date>>, picks: Rec<Date> -> bool, code: string, n: nat)
    requires n <= |table|
    ensures var best := Best(table, picks, code, n);
            if best.None? then forall i :: 0 <= i < n ==> !(table[i].code == code && picks(table[i]))
            else
              && (forall i :: 0 <= i < n && table[i].code == code && picks(table[i]) ==>
                   !Earlier(best.value.date, table[i].date))
              && exists k :: 0 <= k < n && table[k] == best.value && table[k].code == code && picks(table[k])
                   && forall i :: 0 <= i < k && table[i].code == code && picks(table[i]) ==>
                        Earlier(table[i].date, best.value.date)
  {
    if 0 < n {
      BestIsFirstGreatest(table, picks, code, n - 1);
      var best := Best(table, picks, code, n);
      if best != Best(table, picks, code, n - 1) {
        assert table[n - 1] == best.value;
      }
    }
  }

  /** What a load returns, without batches. */
  function PeriodOf(table: seq<Rec<Date>>, picks: Rec<Date> -> bool, codes: seq<string>): Loaded<Date> {
    map code | code in codes && Best(table, picks, code, |table|).Some? :: Best(table, picks, code, |table|).value
  }

  ghost predicate HoldsBest(best: Loaded<Date>, table: seq<Rec<Date>>, picks: Rec<Date> -> bool, codes: set<string>) {
    && (forall c :: c in best ==> c in codes)
    && forall c :: c in codes ==>
         Best(table, picks, c, |table|) == if c in best then Some(best[c]) else None
  }

  /** One batch of codes; a code that was loaded before keeps its report. */
  method LoadPeriodBatch(before: Loaded<Date>, table: seq<Rec<Date>>, picks: Rec<Date> -> bool, batch: seq<string>,
        ghost done: set<string>)
    returns (best: Loaded<Date>)
    requires HoldsBest(before, table, picks, done)
    ensures HoldsBest(best, table, picks, done + (set c | c in batch))
  {
    best := before;
    for n := 0 to |table|
      invariant forall c :: c in best ==> c in done || c in batch
      invariant forall c :: c in done ==> Best(table, picks, c, |table|) == if c in best then Some(best[c]) else None
      invariant forall c :: c in batch && c !in done ==> Best(table, picks, c, n) == if c in best then Some(best[c])
                else None
    {
      var r := table[n];
      if r.code in batch && picks(r) {
        BestIsFirstGreatest(table, picks, r.code, |table|);
        if r.code in best { IsoOrder(best[r.code].date, r.date); }
        if r.code !in best || Less(Iso(best[r.code].date), Iso(r.date)) {
          best := best[r.code := r];
        }
      }
    }
  }

  /** A report of the code that was out by the as-of date, and is of the one date if there is one. */
  predicate Eligible(r: Rec<Date>, code: string, asOf: Date, unified: Option<Date>) {
    r.code == code && !Earlier(asOf, r.date) && (unified.None? || unified.value == r.date)
  }

  /** Row k is the report to show for a code: no eligible one is later, and none before it in the
      table has its date. */
  ghost predicate IsReport(table: seq<Rec<Date>>, k: nat, code: string, asOf: Date, unified: Option<Date>)
    requires k < |table|
  {
    && Eligible(table[k], code, asOf, unified)
    && forall i :: 0 <= i < |table| && Eligible(table[i], code, asOf, unified) ==>
         !Earlier(table[k].date, table[i].date) && (table[i].date == table[k].date ==> k <= i)
  }

  /** The reports by code, read off the table: a code that was asked for is missing exactly when it
      has no eligible report. */
  ghost predicate PointInTime(best: Loaded<Date>, table: seq<Rec<Date>>, codes: seq<string>, asOf: Date,
      unified: Option<Date>) {
    && (forall c :: c in best ==>
         c in codes && exists k :: 0 <= k < |table| && table[k] == best[c] && IsReport(table, k, c, asOf, unified))
    && forall c :: c in codes && c !in best ==>
         forall i :: 0 <= i < |table| ==> !Eligible(table[i], c, asOf, unified)
  }

  lemma {:induction false} BestIsReport(table: seq<Rec<Date>>, code: string, asOf: Date, unified: Option<Date>)
    ensures var best := Best(table, UpTo(asOf, unified), code, |table|);
            if best.None? then forall i :: 0 <= i < |table| ==> !Eligible(table[i], code, asOf, unified)
            else exists k :: 0 <= k < |table| && table[k] == best.value && IsReport(table, k, code, asOf, unified)
  {
    var picks := UpTo(asOf, unified);
    var best := Best(table, picks, code, |table|);
    BestIsFirstGreatest(table, picks, code, |table|);
    forall i | 0 <= i < |table|
      ensures Eligible(table[i], code, asOf, unified) <==> table[i].code == code && picks(table[i]) {
    }
    if best.Some? {
      var k :| 0 <= k < |table| && table[k] == best.value && table[k].code == code && picks(table[k])
        && forall i :: 0 <= i < k && table[i].code == code && picks(table[i]) ==>
             Earlier(table[i].date, best.value.date);
      assert IsReport(table, k, code, asOf, unified);
    }
  }

  lemma {:induction false} PeriodIsPointInTime(table: seq<Rec<Date>>, codes: seq<string>, asOf: Date,
      unified: Option<Date>)
    ensures PointInTime(PeriodOf(table, UpTo(asOf, unified), codes), table, codes, asOf, unified)
  {
    var best := PeriodOf(table, UpTo(asOf, unified), codes);
    forall c | c in best
      ensures exists k :: 0 <= k < |table| && table[k] == best[c] && IsReport(table, k, c, asOf, unified) {
      BestIsReport(table, c, asOf, unified);
    }
    forall c | c in codes && c !in best
      ensures forall i :: 0 <= i < |table| ==> !Eligible(table[i], c, asOf, unified) {
      BestIsReport(table, c, asOf, unified);
    }
  }

  /** Batches leave no trace: every code has the report that an unbatched selection gives it, and
      none is from after the as-of date. */
  method LoadPeriod(table: seq<Rec<Date>>, codes: seq<string>, asOf: Date, unified: Option<Date>)
        returns (best: Loaded<Date>)
    ensures best == PeriodOf(table, UpTo(asOf, unified), codes)
    ensures PointInTime(best, table, codes, asOf, unified)
  {
    best := map[];
    var i := 0;
    var picks := UpTo(asOf, unified);
    ghost var done: set<string> := {};
    while i < |codes|
      invariant forall c :: c in done <==> exists k :: 0 <= k < i && k < |codes| && codes[k] == c
      invariant HoldsBest(best, table, picks, done)
      decreases |codes| - i
    {
      var batch := codes[i..Slices.Upto(i + CODE_BATCH_SIZE, |codes|)];
      best := LoadPeriodBatch(best, table, picks, batch, done);
      done := done + (set c | c in batch);
      forall c ensures c in done <==> exists k :: 0 <= k < i + CODE_BATCH_SIZE && k < |codes| && codes[k] == c {
        BatchMembers(codes, i, c);
      }
      i := i + CODE_BATCH_SIZE;
    }
    assert done == set c | c in codes;
    PeriodIsPointInTime(table, codes, asOf, unified);
  }
}
