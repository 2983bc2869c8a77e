/** The warm thread of the rank engine: its rounds and its lease. */
module WarmLease {
  import opened Clocks
  import opened Options
  import opened StableSort

  const SERVING_TTL := 7.0
  const BATCH_CONCEPTS := 10

  /** A row of the speed lane. Rows are shared: the list being built, the list being served and
      every copy of it hold the same objects, and ranks are written in place. */
  class SpeedRow {
    const code: string
    const speed: Option<real>
    var rank: nat

    constructor (code: string, speed: Option<real>)
      ensures this.code == code && this.speed == speed
    {
      this.code, this.speed := code, speed;
    }
  }

  /** Rows without a speed sort as if it were hugely negative. */
  function SpeedKey(row: SpeedRow): Key {
    Number(row.speed.GetOr(-1000000000000000000.0))
  }

  /** No row is faster than one before it; a missing speed counts as minus ten to the eighteenth. */
  ghost predicate FasterFirst(rows: seq<SpeedRow>) {
    forall i, j :: 0 <= i < j < |rows| && rows[j].speed.Some? ==>
      rows[j].speed.value <= match rows[i].speed case Some(s) => s case None => -1000000000000000000.0
  }

  lemma {:induction false} SortedIsFasterFirst(rows: seq<SpeedRow>)
    requires Sorted(rows, SpeedKey, true)
    ensures FasterFirst(rows)
  {
    forall i, j | 0 <= i < j < |rows| && rows[j].speed.Some?
      ensures rows[j].speed.value <= match rows[i].speed case Some(s) => s case None => -1000000000000000000.0 {
      assert !Precedes(SpeedKey(rows[j]), SpeedKey(rows[i]), true);
    }
  }

  /** The state of the lease after one section of the warm thread. */
  datatype Snapshot = Snapshot(at: real, published: bool, expires: real, inRound: bool, progress: real, renewed: bool) {
    /** What `_speed_meta` answers at an instant in this state. */
    predicate Warm(t: real) { published && (t < expires || inRound) }
    predicate Stale(t: real) { published && expires <= t && inRound }
  }

  /** How a section may change the lease. */
  predicate Follows(a: Snapshot, b: Snapshot) {
    && a.at <= b.at
    && (a.published ==> b.published) && (b.published && !a.published ==> b.renewed)
    && a.expires <= b.expires
    && (if b.renewed then b.published && b.expires == b.at + SERVING_TTL else b.expires == a.expires)
    && 0.0 <= b.progress <= 1.0
    && (a.inRound && b.inRound ==> a.progress <= b.progress)
  }

  ghost predicate TraceOk(trace: seq<Snapshot>, n: nat)
    requires n <= |trace|
  {
    && (1 <= n ==> 0.0 <= trace[n - 1].progress <= 1.0)
    && (2 <= n ==> TraceOk(trace, n - 1) && Follows(trace[n - 2], trace[n - 1]))
  }

  /** The share of the work done, for the progress shown. */
  function Share(done: nat, total: nat): (r: real)
    requires done <= total && 0 < total
    ensures 0.0 <= r <= 1.0
    ensures done == total ==> r == 1.0
  {
    ShareInRange(done, total);
    done as real / total as real
  }

  lemma {:induction false} ShareInRange(done: nat, total: nat)
    requires done <= total && 0 < total
    ensures 0.0 <= done as real / total as real <= 1.0
  {
  }

  lemma {:induction false} ShareGrows(a: nat, b: nat, total: nat)
    requires a <= b <= total && 0 < total
    ensures Share(a, total) <= Share(b, total)
  {
    QuotientGrows(a as real, b as real, total as real);
  }

  lemma {:induction false} QuotientGrows(x: real, y: real, z: real)
    requires x <= y && 0.0 < z
    ensures x / z <= y / z
  {
    var p, q := x / z, y / z;
    assert p * z == x && q * z == y;
    if q < p { ProductGrows(q, p, z); }
  }

  lemma {:induction false} ProductGrows(p: real, q: real, z: real)
    requires p < q && 0.0 < z
    ensures p * z < q * z
  {
  }

  lemma {:induction false} TraceOkSame(a: seq<Snapshot>, b: seq<Snapshot>, n: nat)
    requires n <= |a| && n <= |b| && TraceOk(a, n) && a[..n] == b[..n]
    ensures TraceOk(b, n)
  {
    if 1 <= n {
      assert a[n - 1] == a[..n][n - 1] == b[n - 1];
      if 2 <= n {
        assert a[n - 2] == a[..n][n - 2] == b[n - 2];
        assert a[..n - 1] == a[..n][..n - 1] == b[..n - 1];
        TraceOkSame(a, b, n - 1);
      }
    }
  }

  lemma {:induction false} TraceExtends(trace: seq<Snapshot>, s: Snapshot)
    requires trace != [] && TraceOk(trace, |trace|) && Follows(trace[|trace| - 1], s)
    ensures TraceOk(trace + [s], |trace| + 1)
  {
    TraceOkSame(trace, trace + [s], |trace|);
  }

  /** `b` is `a` with further entries. */
  ghost predicate Prefix(a: seq<Snapshot>, b: seq<Snapshot>) {
    a == b || (b != [] && Prefix(a, b[..|b| - 1]))
  }

  lemma {:induction false} PrefixTransitive(a: seq<Snapshot>, b: seq<Snapshot>, c: seq<Snapshot>)
    requires Prefix(a, b) && Prefix(b, c)
    ensures Prefix(a, c)
  {
    if b != c { PrefixTransitive(a, b, c[..|c| - 1]); }
  }

  /** `b` is `a` with further entries, all of them inside a round. */
  ghost predicate Grown(a: seq<Snapshot>, b: seq<Snapshot>) {
    a == b || (b != [] && b[|b| - 1].inRound && Grown(a, b[..|b| - 1]))
  }

  lemma {:induction false} GrownTransitive(a: seq<Snapshot>, b: seq<Snapshot>, c: seq<Snapshot>)
    requires Grown(a, b) && Grown(b, c)
    ensures Grown(a, c)
  {
    if b != c { GrownTransitive(a, b, c[..|c| - 1]); }
  }

  lemma {:induction false} GrownByOne(a: seq<Snapshot>, x: Snapshot)
    ensures x.inRound ==> Grown(a, a + [x])
    ensures Prefix(a, a + [x])
  {
    assert (a + [x])[..|a|] == a;
  }

  lemma {:induction false} GrownIsPrefix(a: seq<Snapshot>, b: seq<Snapshot>)
    requires Grown(a, b)
    ensures Prefix(a, b)
  {
    if a != b { GrownIsPrefix(a, b[..|b| - 1]); }
  }

  lemma {:induction false} GrownAt(a: seq<Snapshot>, b: seq<Snapshot>, k: nat)
    requires Grown(a, b) && k < |b|
    ensures |a| <= |b|
    ensures if k < |a| then b[k] == a[k] else b[k].inRound
  {
    if a != b {
      if k < |b| - 1 { GrownAt(a, b[..|b| - 1], k); } else { GrownLength(a, b[..|b| - 1]); }
    }
  }

  lemma {:induction false} GrownLength(a: seq<Snapshot>, b: seq<Snapshot>)
    requires Grown(a, b)
    ensures |a| <= |b|
  {
    if a != b { GrownLength(a, b[..|b| - 1]); }
  }

  /** `b` is `a` with further entries inside a round and one that ends it: with a renewal when the
      round was finished, without one when it was abandoned. */
  ghost predicate Ended(a: seq<Snapshot>, b: seq<Snapshot>, finished: bool) {
    && b != [] && Grown(a, b[..|b| - 1])
    && !b[|b| - 1].inRound && b[|b| - 1].renewed == finished
  }

  lemma {:induction false} EndedLater(a: seq<Snapshot>, b: seq<Snapshot>, c: seq<Snapshot>, finished: bool)
    requires Grown(a, b) && Ended(b, c, finished)
    ensures Ended(a, c, finished)
  {
    GrownTransitive(a, b, c[..|c| - 1]);
  }

  lemma {:induction false} EndedByOne(a: seq<Snapshot>, x: Snapshot)
    requires !x.inRound
    ensures Ended(a, a + [x], x.renewed)
  {
    assert (a + [x])[..|a|] == a;
  }

  lemma {:induction false} EndedIsPrefix(a: seq<Snapshot>, b: seq<Snapshot>, finished: bool)
    requires Ended(a, b, finished)
    ensures Prefix(a, b)
  {
    GrownIsPrefix(a, b[..|b| - 1]);
  }

  /** The trace of one pass of the loop: the start of the round, entries inside it, its end, and the
      renewal, which happens when something is published. */
  ghost predicate Pass(a: seq<Snapshot>, b: seq<Snapshot>, begun: Snapshot, finished: bool) {
    && begun.inRound
    && b != [] && Ended(a + [begun], b[..|b| - 1], finished)
    && !b[|b| - 1].inRound && b[|b| - 1].renewed == b[|b| - 1].published
  }

  /** Entry f ends a round that was finished. */
  ghost predicate Finishes(trace: seq<Snapshot>, f: nat)
    requires f < |trace|
  {
    0 < f && trace[f - 1].inRound && !trace[f].inRound && trace[f].renewed
  }

  /** Between passes: every finish is followed by exactly one renewal and then the next round. */
  ghost predicate RoundByRound(trace: seq<Snapshot>) {
    && trace != [] && !trace[|trace| - 1].inRound
    && forall f: nat :: f < |trace| && Finishes(trace, f) ==>
         && f + 1 < |trace| && trace[f + 1].renewed && !trace[f + 1].inRound
         && (f + 2 < |trace| ==> trace[f + 2].inRound)
  }

  lemma {:induction false} PassIsPrefix(a: seq<Snapshot>, b: seq<Snapshot>, begun: Snapshot, finished: bool)
    requires Pass(a, b, begun, finished)
    ensures Prefix(a, b)
  {
    GrownByOne(a, begun);
    EndedIsPrefix(a + [begun], b[..|b| - 1], finished);
    PrefixTransitive(a, a + [begun], b[..|b| - 1]);
  }

  /** Where entry k of the trace after one pass comes from. */
  lemma {:induction false} PassAt(a: seq<Snapshot>, b: seq<Snapshot>, begun: Snapshot, finished: bool, k: nat)
    requires Pass(a, b, begun, finished) && k < |b|
    ensures |a| + 3 <= |b|
    ensures k < |a| ==> b[k] == a[k]
    ensures |a| <= k < |b| - 2 ==> b[k].inRound
    ensures !b[|b| - 2].inRound && b[|b| - 2].renewed == finished
  {
    var ended := b[..|b| - 1];
    var grown := ended[..|ended| - 1];
    GrownLength(a + [begun], grown);
    if k < |grown| {
      GrownAt(a + [begun], grown, k);
      assert b[k] == grown[k];
    }
    assert b[|b| - 2] == ended[|ended| - 1];
  }

  lemma {:induction false} PassKeepsRoundByRound(a: seq<Snapshot>, b: seq<Snapshot>, begun: Snapshot, finished: bool)
    requires RoundByRound(a) && Pass(a, b, begun, finished) && TraceOk(b, |b|)
    ensures RoundByRound(b)
  {
    var n, m := |a|, |b|;
    forall k: nat | k < m ensures n + 3 <= m && (k < n ==> b[k] == a[k]) && (n <= k < m - 2 ==> b[k].inRound) {
      PassAt(a, b, begun, finished, k);
    }
    forall f: nat | f < m && Finishes(b, f)
      ensures f + 1 < m && b[f + 1].renewed && !b[f + 1].inRound && (f + 2 < m ==> b[f + 2].inRound) {
      PassAt(a, b, begun, finished, f);
      if f < n {
        assert Finishes(a, f);
      } else {
        assert f == m - 2;
        TraceAt(b, m, f - 1);
        TraceAt(b, m, f);
      }
    }
  }

  // ----- Ranked lists of shared rows -----

  ghost predicate Distinct(rows: seq<SpeedRow>) {
    rows != [] ==> rows[0] !in rows[1..] && Distinct(rows[1..])
  }

  lemma {:induction false} DistinctAt(rows: seq<SpeedRow>, i: nat, j: nat)
    requires Distinct(rows) && i < j < |rows|
    ensures rows[i] != rows[j]
  {
    if 0 < i { DistinctAt(rows[1..], i - 1, j - 1); } else { assert rows[j] == rows[1..][j - 1]; }
  }

  lemma {:induction false} DistinctAppend(rows: seq<SpeedRow>, row: SpeedRow)
    requires Distinct(rows) && row !in rows
    ensures Distinct(rows + [row])
  {
    if rows != [] {
      DistinctAppend(rows[1..], row);
      assert (rows + [row])[1..] == rows[1..] + [row];
    }
  }

  lemma {:induction false} InsertKeepsDistinct(row: SpeedRow, rows: seq<SpeedRow>)
    requires Distinct(rows) && row !in rows
    ensures Distinct(Insert(row, rows, SpeedKey, true))
  {
    if rows != [] && Precedes(SpeedKey(rows[0]), SpeedKey(row), true) {
      InsertKeepsDistinct(row, rows[1..]);
      InsertMember(row, rows[1..], SpeedKey, true, rows[0]);
      assert Insert(row, rows, SpeedKey, true)[1..] == Insert(row, rows[1..], SpeedKey, true);
    } else {
      assert ([row] + rows)[1..] == rows;
    }
  }

  lemma {:induction false} SortMember(rows: seq<SpeedRow>, row: SpeedRow)
    ensures row in Sort(rows, SpeedKey, true) <==> row in rows
  {
    SortPermutes(rows, SpeedKey, true);
    assert row in Sort(rows, SpeedKey, true) <==> row in multiset(Sort(rows, SpeedKey, true));
    assert row in rows <==> row in multiset(rows);
  }

  ghost function Rows(rows: seq<SpeedRow>): set<SpeedRow> {
    set r | r in rows
  }

  lemma {:induction false} SortedRows(rows: seq<SpeedRow>)
    ensures forall r :: r in Sort(rows, SpeedKey, true) ==> r in Rows(rows)
  {
    forall r | r in Sort(rows, SpeedKey, true) ensures r in Rows(rows) { SortMember(rows, r); }
  }

  lemma {:induction false} SortIsNotEmpty(rows: seq<SpeedRow>)
    requires rows != []
    ensures Sort(rows, SpeedKey, true) != []
  {
  }

  lemma {:induction false} SortKeepsDistinct(rows: seq<SpeedRow>)
    requires Distinct(rows)
    ensures Distinct(Sort(rows, SpeedKey, true))
  {
    if rows != [] {
      SortKeepsDistinct(rows[1..]);
      SortMember(rows[1..], rows[0]);
      InsertKeepsDistinct(rows[0], Sort(rows[1..], SpeedKey, true));
    }
  }

  ghost predicate Ranked(rows: seq<SpeedRow>)
    reads rows
  {
    forall i :: 0 <= i < |rows| ==> rows[i].rank == i + 1
  }

  /** Writes the ranks 1, 2, ... into the rows. */
  method WriteRanks(rows: seq<SpeedRow>, ghost frame: set<SpeedRow>)
    requires Distinct(rows) && forall r :: r in rows ==> r in frame
    modifies frame
    ensures Ranked(rows)
  {
    for i := 0 to |rows|
      invariant forall j :: 0 <= j < i ==> rows[j].rank == j + 1
    {
      forall j | 0 <= j < i ensures rows[j] != rows[i] { DistinctAt(rows, j, i); }
      rows[i].rank := i + 1;
    }
  }

  /** The rewriting that the end of a round does without the lock: every single write puts the
      value that is already there, so no reader of the shared rows can see it happen. */
  method RewriteRanks(rows: seq<SpeedRow>, ghost frame: set<SpeedRow>)
    requires Ranked(rows) && forall r :: r in rows ==> r in frame
    modifies frame
    ensures forall r :: r in frame ==> r.rank == old(r.rank)
  {
    for i := 0 to |rows|
      invariant forall r :: r in frame ==> r.rank == old(r.rank)
    {
      rows[i].rank := i + 1;
    }
  }

  /** A sorted copy of a list of rows, with the ranks written into the rows. */
  method SortAndRank(building: seq<SpeedRow>) returns (sorted: seq<SpeedRow>)
    requires building != [] && Distinct(building)
    modifies Rows(building)
    ensures sorted == Sort(building, SpeedKey, true) && sorted != []
    ensures Ranked(sorted) && Sorted(sorted, SpeedKey, true) && FasterFirst(sorted)
  {
    sorted := Sort(building, SpeedKey, true);
    SortIsNotEmpty(building);
    SortSorts(building, SpeedKey, true);
    SortedIsFasterFirst(sorted);
    SortKeepsDistinct(building);
    SortedRows(building);
    WriteRanks(sorted, Rows(building));
  }

  /** Sorting and ranking once more what is served already changes no rank. */
  method SortAgain(building: seq<SpeedRow>, served: seq<SpeedRow>) returns (sorted: seq<SpeedRow>)
    requires building != [] && served == Sort(building, SpeedKey, true) && Ranked(served)
    modifies Rows(building)
    ensures sorted == served && sorted != []
    ensures forall r :: r in Rows(building) ==> r.rank == old(r.rank)
    ensures forall r :: r in served ==> r.rank == old(r.rank)
  {
    sorted := Sort(building, SpeedKey, true);
    SortIsNotEmpty(building);
    SortedRows(building);
    RewriteRanks(sorted, Rows(building));
  }

  // ----- The engine -----

  datatype Outcome = Finished | NoCatalog | Stopped | Raised

  class RankEngine {
    const clock: Clock
    var serving: seq<SpeedRow>
    var expiresAt: real
    var roundInProgress: bool
    var progress: real
    var indices: seq<string>
    ghost var trace: seq<Snapshot>    // the lease after every section, oldest first

    constructor (clock: Clock)
      requires 0.0 <= clock.now
      ensures Valid() && RoundByRound(trace) && !roundInProgress && serving == [] && this.clock == clock
    {
      this.clock := clock;
      serving, expiresAt, roundInProgress, progress, indices := [], 0.0, false, 0.0, [];
      trace := [Snapshot(clock.now, false, 0.0, false, 0.0, false)];
    }

    ghost function Current(at: real, renewed: bool): Snapshot
      reads this
    {
      Snapshot(at, serving != [], expiresAt, roundInProgress, progress, renewed)
    }

    ghost function Last(): Snapshot
      requires trace != []
      reads this
    {
      trace[|trace| - 1]
    }

    /** What holds whenever the lock is free: the trace obeys the lease rules, its last entry is
        the present state, the expiry is at most a lease ahead, and the served rows stand in
        descending order of speed with ranks 1, 2, ... */
    ghost predicate Valid()
      reads this, clock, serving
    {
      && trace != [] && !trace[0].published && TraceOk(trace, |trace|)
      && Last() == Current(Last().at, Last().renewed)
      && Last().at <= clock.now && expiresAt <= Last().at + SERVING_TTL
      && Ranked(serving) && Sorted(serving, SpeedKey, true)
    }

    /** The codes that are served are these. */
    ghost predicate Serves(codes: seq<string>)
      reads this`serving
    {
      forall c :: c in codes <==> exists r :: r in serving && r.code == c
    }

    lemma {:induction false} BuiltServes(building: seq<SpeedRow>, codes: seq<string>)
      requires serving == Sort(building, SpeedKey, true)
      requires |building| == |codes| && forall k :: 0 <= k < |codes| ==> building[k].code == codes[k]
      ensures Serves(codes)
    {
      forall c ensures c in codes <==> exists r :: r in serving && r.code == c {
        if c in codes {
          var k :| 0 <= k < |codes| && codes[k] == c;
          SortMember(building, building[k]);
        }
        if r :| r in serving && r.code == c {
          SortMember(building, r);
        }
      }
    }

    /** Ends a section: `at` is when it took the lock. */
    ghost method Log(at: real, renewed: bool)
      requires trace != [] && TraceOk(trace, |trace|)
      requires at <= clock.now && Follows(Last(), Current(at, renewed))
      modifies this`trace
      ensures trace == old(trace) + [Current(at, renewed)] && Prefix(old(trace), trace)
      ensures roundInProgress ==> Grown(old(trace), trace)
      ensures !roundInProgress ==> Ended(old(trace), trace, renewed)
      ensures TraceOk(trace, |trace|)
    {
      TraceExtends(trace, Current(at, renewed));
      GrownByOne(trace, Current(at, renewed));
      if !roundInProgress { EndedByOne(trace, Current(at, renewed)); }
      trace := trace + [Current(at, renewed)];
    }

    method BeginRound()
      requires Valid() && !roundInProgress
      modifies this, clock
      ensures Valid() && Prefix(old(trace), trace) && roundInProgress && progress == 0.0
      ensures serving == old(serving) && indices == old(indices)
      ensures Last().renewed == (serving != [])
      ensures trace == old(trace) + [Last()] && Last().inRound
    {
      var now := clock.Now();
      roundInProgress := true;
      if serving != [] {
        expiresAt := Later(expiresAt, now + SERVING_TTL);
      }
      progress := 0.0;
      Log(now, serving != []);
    }

    method SetProgress(p: real)
      requires Valid() && roundInProgress && progress <= p <= 1.0
      modifies this`progress, this`trace, clock
      ensures Valid() && Grown(old(trace), trace) && progress == p
    {
      var now := clock.Now();
      progress := p;
      Log(now, false);
    }

    /** Leaves a round early; without a catalog the progress is shown as complete. */
    method AbandonRound(complete: bool)
      requires Valid()
      modifies this`progress, this`roundInProgress, this`trace, clock
      ensures Valid() && Ended(old(trace), trace, false) && !roundInProgress
      ensures progress == (if complete then 1.0 else old(progress)) && !Last().renewed
    {
      var now := clock.Now();
      if complete {
        progress := 1.0;
      }
      roundInProgress := false;
      Log(now, false);
    }

    /** Publishes a sorted copy of what was built so far and renews the lease. */
    method PublishPartial(building: seq<SpeedRow>, p: real)
      requires Valid() && roundInProgress && progress <= p <= 1.0
      requires building != [] && Distinct(building)
      modifies this`progress, this`serving, this`expiresAt, this`trace, clock, Rows(building)
      ensures Valid() && Grown(old(trace), trace) && progress == p
      ensures serving == Sort(building, SpeedKey, true) && Ranked(serving) && FasterFirst(serving)
      ensures Last() == Snapshot(Last().at, true, Last().at + SERVING_TTL, true, p, true)
    {
      var now := clock.Now();
      progress := p;
      var partial := SortAndRank(building);
      serving := partial;
      expiresAt := now + SERVING_TTL;
      Log(now, true);
    }

    /** The end of a round: sort, write the ranks again, publish, renew. */
    method FinishRound(building: seq<SpeedRow>)
      requires Valid() && roundInProgress
      requires building != [] && serving == Sort(building, SpeedKey, true)
      modifies this`progress, this`roundInProgress, this`serving, this`expiresAt, this`trace, clock, Rows(building)
      ensures Valid() && Ended(old(trace), trace, true) && !roundInProgress && serving == old(serving)
      ensures Last() == Snapshot(Last().at, true, Last().at + SERVING_TTL, false, 1.0, true)
      ensures forall r :: r in building ==> r.rank == old(r.rank)
    {
      var sorted := SortAgain(building, serving);
      var now := clock.Now();
      serving := sorted;
      expiresAt := now + SERVING_TTL;
      progress := 1.0;
      roundInProgress := false;
      Log(now, true);
    }

    /** The renewal between rounds. */
    method Renew()
      requires Valid() && !roundInProgress
      modifies this`expiresAt, this`trace, clock
      ensures Valid() && trace == old(trace) + [Last()] && !roundInProgress && !Last().inRound
      ensures Last().renewed == Last().published == (serving != [])
    {
      var now := clock.Now();
      if serving != [] {
        expiresAt := Later(expiresAt, now + SERVING_TTL);
      }
      Log(now, serving != []);
    }

    /** Loads the catalog. A failure keeps the previous one. */
    method LoadCatalog() returns (ok: bool)
      modifies this`indices
      ensures ok <==> indices != []
    {
      var loaded: bool := *;
      var exported: seq<string> := *;
      if loaded {
        indices := exported;
      }
      ok := indices != [];
    }

    /** Phase A: quotes in batches. Every batch may be the last one, because a stop was asked for
        or an exception flies. */
    method QuotePhase(total: nat) returns (outcome: Outcome)
      requires Valid() && roundInProgress && progress == 0.0 && 0 < total
      modifies this`progress, this`roundInProgress, this`trace, clock
      ensures Valid()
      ensures match outcome
              case Finished => Grown(old(trace), trace) && roundInProgress && progress == 0.35
              case Stopped => Ended(old(trace), trace, false) && !roundInProgress
              case Raised => Grown(old(trace), trace) && roundInProgress
              case NoCatalog => false
    {
      var i := 0;
      while i < total
        invariant Valid() && Grown(old(trace), trace) && roundInProgress
        invariant i <= total && progress == 0.35 * Share(i, total)
      {
        var stop: bool, raised: bool := *, *;
        ghost var mid := trace;
        if stop {
          AbandonRound(false);
          EndedLater(old(trace), mid, trace, false);
          return Stopped;
        }
        if raised {
          return Raised;
        }
        var done := if i + BATCH_CONCEPTS < total then i + BATCH_CONCEPTS else total;
        ShareGrows(i, done, total);
        SetProgress(0.35 * Share(done, total));
        GrownTransitive(old(trace), mid, trace);
        i := done;
      }
      outcome := Finished;
    }

    /** Phase B: speeds in batches, publishing and renewing after each one. */
    method SpeedPhase(codes: seq<string>) returns (outcome: Outcome, building: seq<SpeedRow>)
      requires Valid() && roundInProgress && progress == 0.35 && codes != []
      modifies this`progress, this`roundInProgress, this`serving, this`expiresAt, this`trace, clock
      ensures Valid()
      ensures forall r :: r in building ==> fresh(r)
      ensures match outcome
              case Finished =>
                && Grown(old(trace), trace) && roundInProgress && building != []
                && |building| == |codes| && (forall k :: 0 <= k < |codes| ==> building[k].code == codes[k])
                && serving == Sort(building, SpeedKey, true) && progress == 1.0
              case Stopped => Ended(old(trace), trace, false) && !roundInProgress
              case Raised => Grown(old(trace), trace) && roundInProgress
              case NoCatalog => false
    {
      var total := |codes|;
      var i := 0;
      building := [];
      while i < total
        invariant Valid() && Grown(old(trace), trace) && roundInProgress
        invariant i <= total && progress == 0.35 + 0.65 * Share(i, total)
        invariant |building| == i && Distinct(building)
        invariant forall r :: r in building ==> fresh(r)
        invariant forall k :: 0 <= k < i ==> building[k].code == codes[k]
        invariant 0 < i ==> serving == Sort(building, SpeedKey, true)
      {
        var stop: bool, raised: bool := *, *;
        ghost var mid := trace;
        if stop {
          AbandonRound(false);
          EndedLater(old(trace), mid, trace, false);
          return Stopped, building;
        }
        if raised {
          return Raised, building;
        }
        var done := if i + BATCH_CONCEPTS < total then i + BATCH_CONCEPTS else total;
        building := BuildBatch(building, codes, i, done);
        ShareGrows(i, done, total);
        PublishPartial(building, 0.35 + 0.65 * Share(done, total));
        GrownTransitive(old(trace), mid, trace);
        i := done;
      }
      outcome := Finished;
    }

    /** Appends a new row for each code of a batch; a speed that could not be fetched is missing. */
    method BuildBatch(built: seq<SpeedRow>, codes: seq<string>, from: nat, to: nat) returns (building: seq<SpeedRow>)
      requires from <= to <= |codes| && |built| == from && Distinct(built)
      requires forall k :: 0 <= k < from ==> built[k].code == codes[k]
      ensures |building| == to && Distinct(building)
      ensures forall k :: 0 <= k < to ==> building[k].code == codes[k]
      ensures forall r :: r in building ==> r in built || fresh(r)
    {
      building := built;
      for k := from to to
        invariant |building| == k && Distinct(building)
        invariant forall j :: 0 <= j < k ==> building[j].code == codes[j]
        invariant forall r :: r in building ==> allocated(r)
        invariant forall r :: r in building ==> r in built || fresh(r)
      {
        var speed: Option<real> := *;
        var row := new SpeedRow(codes[k], speed);
        DistinctAppend(building, row);
        building := building + [row];
      }
    }

    /** One round. A finished round has published one row per concept, with a full lease. */
    method RunWarmRound() returns (outcome: Outcome, ghost begun: Snapshot)
      requires Valid() && !roundInProgress
      modifies this, clock
      ensures Valid() && begun.inRound
      ensures if outcome == Raised then Grown(old(trace) + [begun], trace)
              else Ended(old(trace) + [begun], trace, outcome == Finished)
      ensures roundInProgress <==> outcome == Raised
      ensures outcome == Finished ==>
        && Last() == Snapshot(Last().at, true, Last().at + SERVING_TTL, false, 1.0, true)
        && |serving| == |indices| && serving != [] && Serves(indices)
        && Ranked(serving) && FasterFirst(serving)
    {
      BeginRound();
      begun := Last();
      var ok := LoadCatalog();
      var codes := indices;
      if !ok {
        AbandonRound(true);
        outcome := NoCatalog;
      } else {
        outcome := Phases(codes);
      }
      SortedIsFasterFirst(serving);
    }

    method Phases(codes: seq<string>) returns (outcome: Outcome)
      requires Valid() && roundInProgress && progress == 0.0 && codes != []
      modifies this`progress, this`roundInProgress, this`serving, this`expiresAt, this`trace, clock
      ensures Valid()
      ensures if outcome == Raised then Grown(old(trace), trace) else Ended(old(trace), trace, outcome == Finished)
      ensures outcome != NoCatalog && (roundInProgress <==> outcome == Raised)
      ensures outcome == Finished ==>
        && Last() == Snapshot(Last().at, true, Last().at + SERVING_TTL, false, 1.0, true)
        && |serving| == |codes| && Serves(codes)
    {
      outcome := QuotePhase(|codes|);
      if outcome == Finished {
        ghost var quoted := trace;
        outcome := PublishPhase(codes);
        if outcome == Raised {
          GrownTransitive(old(trace), quoted, trace);
        } else {
          EndedLater(old(trace), quoted, trace, outcome == Finished);
        }
      }
    }

    /** Phase B and, when it was not cut short, the end of the round. */
    method PublishPhase(codes: seq<string>) returns (outcome: Outcome)
      requires Valid() && roundInProgress && progress == 0.35 && codes != []
      modifies this`progress, this`roundInProgress, this`serving, this`expiresAt, this`trace, clock
      ensures Valid()
      ensures if outcome == Raised then Grown(old(trace), trace) else Ended(old(trace), trace, outcome == Finished)
      ensures outcome != NoCatalog && (roundInProgress <==> outcome == Raised)
      ensures outcome == Finished ==>
        && Last() == Snapshot(Last().at, true, Last().at + SERVING_TTL, false, 1.0, true)
        && |serving| == |codes| && Serves(codes)
    {
      var building;
      outcome, building := SpeedPhase(codes);
      if outcome == Finished {
        ghost var spoken := trace;
        SortPermutes(building, SpeedKey, true);
        BuiltServes(building, codes);
        FinishRound(building);
        EndedLater(old(trace), spoken, trace, true);
      }
    }

    /** One pass of the loop: an exception ends the round, and the lease is renewed. A finished
        round is followed by exactly one renewal. */
    method Round() returns (outcome: Outcome, ghost begun: Snapshot)
      requires Valid() && !roundInProgress
      modifies this, clock
      ensures Valid() && !roundInProgress
      ensures Pass(old(trace), trace, begun, outcome == Finished)
      ensures Last().renewed == (serving != [])
    {
      outcome, begun := RunWarmRound();
      ghost var mid := trace;
      if outcome == Raised {
        AbandonRound(false);
        EndedLater(old(trace) + [begun], mid, trace, false);
      }
      ghost var ended := trace;
      Renew();
      assert trace[..|trace| - 1] == ended;
    }

    /** The warm loop, until a stop is seen after `rounds` rounds: in its trace every finished round
        is followed by exactly one renewal and then the next round. */
    method WarmLoop(rounds: nat)
      requires Valid() && !roundInProgress && RoundByRound(trace)
      modifies this, clock
      ensures Valid() && !roundInProgress && RoundByRound(trace) && Prefix(old(trace), trace)
    {
      for k := 0 to rounds
        invariant Valid() && !roundInProgress && RoundByRound(trace) && Prefix(old(trace), trace)
      {
        ghost var mid := trace;
        var outcome;
        ghost var begun;
        outcome, begun := Round();
        PassKeepsRoundByRound(mid, trace, begun, outcome == Finished);
        PassIsPrefix(mid, trace, begun, outcome == Finished);
        PrefixTransitive(old(trace), mid, trace);
        var waited := clock.Now();
      }
    }

    /** What a request is told about the speed lane: (warm, stale, progress). */
    method SpeedMeta() returns (warm: bool, stale: bool, shown: real, ghost now: real)
      requires Valid()
      modifies clock
      ensures Valid() && old(clock.now) <= now
      ensures warm == Last().Warm(now) && stale == Last().Stale(now)
      ensures warm <==> serving != [] && (now < expiresAt || roundInProgress)
      ensures stale <==> serving != [] && expiresAt <= now && roundInProgress
      ensures stale ==> warm
      ensures 0.0 <= shown <= 1.0
      ensures warm && !stale && !roundInProgress ==> shown == 1.0
      ensures roundInProgress ==> shown == progress
      ensures !roundInProgress && !warm ==> shown == if serving == [] then 0.0 else progress
    {
      var t := clock.Now();
      now := t;
      var nonempty := serving != [];
      warm := nonempty && (t < expiresAt || roundInProgress);
      stale := nonempty && t >= expiresAt && roundInProgress;
      shown := progress;
      if !roundInProgress && nonempty && t < expiresAt {
        shown := 1.0;
      } else if !nonempty {
        shown := if roundInProgress then progress else 0.0;
      }
    }
  }

  // ----- What the trace of every run says -----

  /** When the lease was last renewed, up to entry i. */
  function LastRenewal(trace: seq<Snapshot>, i: nat): real
    requires i < |trace|
  {
    if trace[i].renewed || i == 0 then trace[i].at else LastRenewal(trace, i - 1)
  }

  lemma {:induction false} TraceAt(trace: seq<Snapshot>, n: nat, i: nat)
    requires n <= |trace| && TraceOk(trace, n) && i + 1 < n
    ensures Follows(trace[i], trace[i + 1])
  {
    if i + 2 < n { TraceAt(trace, n - 1, i); }
  }

  /** Once published, the lane expires exactly one lease after the last renewal. */
  lemma {:induction false} ExpiryIsOneLease(trace: seq<Snapshot>, i: nat)
    requires TraceOk(trace, |trace|) && i < |trace| && !trace[0].published && trace[i].published
    ensures trace[i].expires == LastRenewal(trace, i) + SERVING_TTL
    ensures LastRenewal(trace, i) <= trace[i].at
  {
    if 0 < i {
      TraceAt(trace, |trace|, i - 1);
      if !trace[i].renewed { ExpiryIsOneLease(trace, i - 1); }
    }
  }

  /** From any entry on: nothing published is ever withdrawn and the expiry never moves back. */
  lemma {:induction false} NeverWithdrawn(trace: seq<Snapshot>, i: nat, j: nat)
    requires TraceOk(trace, |trace|) && i <= j < |trace|
    ensures trace[i].at <= trace[j].at && trace[i].expires <= trace[j].expires
    ensures trace[i].published ==> trace[j].published
  {
    if i < j {
      NeverWithdrawn(trace, i, j - 1);
      TraceAt(trace, |trace|, j - 1);
    }
  }

  /** Inside one round the progress only grows. */
  lemma {:induction false} ProgressGrowsInARound(trace: seq<Snapshot>, i: nat, j: nat)
    requires TraceOk(trace, |trace|) && i <= j < |trace|
    requires forall k :: i <= k <= j ==> trace[k].inRound
    ensures 0.0 <= trace[i].progress <= trace[j].progress <= 1.0
  {
    if i < j {
      ProgressGrowsInARound(trace, i, j - 1);
      TraceAt(trace, |trace|, j - 1);
    } else {
      ProgressInRange(trace, |trace|, i);
    }
  }

  lemma {:induction false} ProgressInRange(trace: seq<Snapshot>, n: nat, i: nat)
    requires n <= |trace| && TraceOk(trace, n) && i < n
    ensures 0.0 <= trace[i].progress <= 1.0
  {
    if i < n - 1 { ProgressInRange(trace, n - 1, i); }
  }

  /** Between entries i and i + 1, a published lane is warm at every instant exactly when a round
      is running or the next section comes no later than one lease after the last renewal. */
  lemma WarmBetween(trace: seq<Snapshot>, i: nat)
    requires TraceOk(trace, |trace|) && i + 1 < |trace| && !trace[0].published && trace[i].published
    ensures (forall t :: trace[i].at <= t < trace[i + 1].at ==> trace[i].Warm(t))
       <==> trace[i].inRound || trace[i + 1].at == trace[i].at || trace[i + 1].at <= LastRenewal(trace, i) + SERVING_TTL
  {
    ExpiryIsOneLease(trace, i);
    TraceAt(trace, |trace|, i);
    var gap := trace[i + 1].at;
    if !trace[i].inRound && trace[i].at < gap && trace[i].expires < gap {
      var t := if trace[i].at < trace[i].expires then trace[i].expires else trace[i].at;
      assert !trace[i].Warm(t);
    }
  }

  /** In every trace of the warm loop, after every finished round, up to the start of the next
      round: the lane is warm at every instant from the finish on exactly when neither the gap to the
      renewal nor the gap from there to the next round exceeds one lease. */
  lemma WarmIntoTheNextRound(trace: seq<Snapshot>, f: nat)
    requires f + 2 < |trace| && Finishes(trace, f)
    requires TraceOk(trace, |trace|) && !trace[0].published && RoundByRound(trace)
    ensures (forall i, t :: f <= i <= f + 1 && trace[i].at <= t < trace[i + 1].at ==> trace[i].Warm(t))
       <==> trace[f + 1].at <= trace[f].at + 7.0 && trace[f + 2].at <= trace[f + 1].at + 7.0
    ensures forall t {:trigger trace[f + 2].Warm(t)} :: trace[f + 2].Warm(t)
  {
    TraceAt(trace, |trace|, f - 1);
    TraceAt(trace, |trace|, f);
    TraceAt(trace, |trace|, f + 1);
    WarmBetween(trace, f);
    WarmBetween(trace, f + 1);
  }
}
