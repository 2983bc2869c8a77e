/** A 60-second window over call stamps, oldest first. */
module SlidingWindow {
  import opened Clocks

  const WINDOW := 60.0

  ghost predicate Ascending(h: seq<real>) {
    AscendingTo(h, |h|)
  }

  ghost predicate AscendingTo(h: seq<real>, n: nat)
    requires n <= |h|
  {
    2 <= n ==> AscendingTo(h, n - 1) && h[n - 2] <= h[n - 1]
  }

  lemma {:induction false} AscendingAt(h: seq<real>, i: nat, j: nat)
    requires Ascending(h) && i <= j < |h|
    ensures h[i] <= h[j]
  {
    AscendingToAt(h, |h|, i, j);
  }

  lemma {:induction false} AscendingToAt(h: seq<real>, n: nat, i: nat, j: nat)
    requires n <= |h| && AscendingTo(h, n) && i <= j < n
    ensures h[i] <= h[j]
  {
    if i < j {
      if j < n - 1 { AscendingToAt(h, n - 1, i, j); } else { AscendingToAt(h, n - 1, i, j - 1); }
    }
  }

  lemma {:induction false} AscendingToSame(g: seq<real>, h: seq<real>, n: nat)
    requires n <= |g| && n <= |h| && g[..n] == h[..n] && AscendingTo(g, n)
    ensures AscendingTo(h, n)
  {
    if 2 <= n {
      assert forall k :: 0 <= k < n ==> g[k] == g[..n][k] == h[..n][k] == h[k];
      AscendingToSame(g, h, n - 1);
    }
  }

  /** How many leading stamps are strictly older than the window that ends at `now`. */
  function Stale(h: seq<real>, now: real): (n: nat)
    ensures n <= |h|
    ensures 0 < n ==> h[n - 1] < now - WINDOW
    ensures n < |h| ==> now - WINDOW <= h[n]
  {
    StaleFrom(h, now, 0)
  }

  function StaleFrom(h: seq<real>, now: real, i: nat): (n: nat)
    requires i <= |h|
    ensures i <= n <= |h|
    ensures i < n ==> h[n - 1] < now - WINDOW
    ensures n < |h| ==> now - WINDOW <= h[n]
    decreases |h| - i
  {
    if i == |h| || now - WINDOW <= h[i] then i else StaleFrom(h, now, i + 1)
  }

  /** The stamps a limiter that scans the whole history sees at `now`. */
  function InWindow(h: seq<real>, now: real): seq<real> {
    h[Stale(h, now)..]
  }

  /** When a call whose first clock reading is `now` may leave one window:
      at once while the window has room, otherwise when its oldest stamp is a window old. */
  function Release(h: seq<real>, limit: int, now: real): (t: real)
    ensures now <= t
  {
    ReleaseFrom(InWindow(h, now), limit, now)
  }

  function ReleaseFrom(w: seq<real>, limit: int, now: real): (t: real)
    ensures now <= t
  {
    if |w| < limit || w == [] then now else Later(now, w[0] + WINDOW)
  }

  /** The earliest instant at which one more stamp keeps `limit` stamps per window. */
  function Earliest(h: seq<real>, limit: nat, now: real): (t: real)
    requires 0 < limit
  {
    if |h| < limit then now else Later(now, h[|h| - limit] + WINDOW)
  }

  /** Stamp `i` comes at least a window after the stamp `limit` places before it. */
  ghost predicate Spaced(h: seq<real>, i: nat, limit: nat)
    requires i < |h|
  {
    limit <= i ==> h[i - limit] + WINDOW <= h[i]
  }

  /** Any limit + 1 consecutive stamps span at least a window. */
  ghost predicate Bounded(h: seq<real>, limit: nat) {
    forall i: nat :: i < |h| ==> Spaced(h, i, limit)
  }

  /** The same with one limit per stamp: `peaks[i]` is the largest limit used up to stamp i. */
  ghost predicate BoundedBy(h: seq<real>, peaks: seq<nat>)
    requires |peaks| == |h|
  {
    forall i: nat :: i < |h| ==> Spaced(h, i, peaks[i])
  }

  ghost predicate AscendingNat(p: seq<nat>) {
    forall i, j :: 0 <= i <= j < |p| ==> p[i] <= p[j]
  }

  /** What one call may record after `h`: its first reading does not precede the last stamp,
      and it leaves no window before its release. */
  ghost predicate Issues(h: seq<real>, limit: int, first: real, stamp: real) {
    && (h != [] ==> h[|h| - 1] <= first)
    && Release(h, limit, first) <= stamp
  }

  /** The clock moved between the last recorded stamp and this call's first reading. */
  ghost predicate Ticked(h: seq<real>, first: real) {
    h != [] ==> h[|h| - 1] < first
  }

  /** In an ascending history the stale prefix is exactly the set of stale stamps. */
  lemma {:induction false} StaleIsPrefix(h: seq<real>, now: real, i: nat)
    requires Ascending(h) && i < |h|
    ensures i < Stale(h, now) <==> h[i] < now - WINDOW
  {
    var n := Stale(h, now);
    if n <= i { AscendingAt(h, n, i); } else { AscendingAt(h, i, n - 1); }
  }

  /** The window at a call that starts after a tick holds at most the current peak. */
  lemma {:induction false} WindowWithinPeak(h: seq<real>, limit: nat, first: real)
    requires Ascending(h) && 0 < |h| && Ticked(h, first)
    requires Spaced(h, |h| - 1, limit) && 0 < limit
    ensures |InWindow(h, first)| <= limit
  {
    if limit <= |h| - 1 { StaleIsPrefix(h, first, |h| - 1 - limit); }
  }

  /** One call under its own limit keeps every window within the largest limit used so far. */
  lemma {:induction false} IssueKeepsPeakBound(h: seq<real>, peaks: seq<nat>, limit: int, first: real, stamp: real)
    requires Ascending(h) && |peaks| == |h| && BoundedBy(h, peaks)
    requires forall p :: p in peaks ==> 0 < p
    requires Issues(h, limit, first, stamp) && Ticked(h, first)
    requires h == [] ==> 0 < limit
    ensures var peak := if h == [] || peaks[|h| - 1] < limit then limit else peaks[|h| - 1];
            0 < peak && Spaced(h + [stamp], |h|, peak) && BoundedBy(h + [stamp], peaks + [peak])
  {
    var n := |h|;
    var peak: int := if h == [] || peaks[n - 1] < limit then limit else peaks[n - 1];
    var g := h + [stamp];
    if peak <= n {
      assert Spaced(h, n - 1, peaks[n - 1]);
      WindowWithinPeak(h, peaks[n - 1], first);
      StaleIsPrefix(h, first, n - peak);
      assert h[n - peak] + WINDOW <= stamp;
    }
    assert Spaced(g, n, peak);
    forall i: nat | i < |g| ensures Spaced(g, i, (peaks + [peak])[i]) {
      if i < n { assert Spaced(h, i, peaks[i]); }
    }
  }

  /** With a limit that never changes, one call keeps the plain bound. */
  lemma {:induction false} IssueKeepsBound(h: seq<real>, limit: nat, first: real, stamp: real)
    requires 0 < limit && Ascending(h) && Bounded(h, limit)
    requires Issues(h, limit, first, stamp) && Ticked(h, first)
    ensures Bounded(h + [stamp], limit)
  {
    var n := |h|;
    var g := h + [stamp];
    if limit <= n {
      assert Spaced(h, n - 1, limit);
      WindowWithinPeak(h, limit, first);
      StaleIsPrefix(h, first, n - limit);
    }
    assert Spaced(g, n, limit);
    forall i: nat | i < n ensures Spaced(g, i, limit) { assert Spaced(h, i, limit); }
  }

  /** Every run of calls, each with its own limit: `limits[i]`, `firsts[i]` and `h[i]` are the
      limit, first clock reading and stamp of call i. */
  ghost predicate IsRun(h: seq<real>, limits: seq<nat>, firsts: seq<real>)
    requires |limits| == |h| == |firsts|
  {
    h != [] ==>
      var n := |h| - 1;
      && IsRun(h[..n], limits[..n], firsts[..n])
      && 0 < limits[n]
      && Issues(h[..n], limits[n], firsts[n], h[n])
  }

  /** The clock ticked before every call of the run. */
  ghost predicate AlwaysTicked(h: seq<real>, firsts: seq<real>)
    requires |h| == |firsts|
  {
    h != [] ==>
      var n := |h| - 1;
      AlwaysTicked(h[..n], firsts[..n]) && Ticked(h[..n], firsts[n])
  }

  /** The largest limit used by calls 0..i. */
  function Peaks(limits: seq<nat>): (p: seq<nat>)
    ensures |p| == |limits|
  {
    if limits == [] then []
    else
      var n := |limits| - 1;
      var p := Peaks(limits[..n]);
      p + [if n == 0 || p[n - 1] < limits[n] then limits[n] else p[n - 1]]
  }

  lemma {:induction false} RunAscends(h: seq<real>, limits: seq<nat>, firsts: seq<real>)
    requires |limits| == |h| == |firsts| && IsRun(h, limits, firsts)
    ensures Ascending(h)
    ensures forall p :: p in Peaks(limits) ==> 0 < p
  {
    if h != [] {
      var n := |h| - 1;
      var g := h[..n];
      RunAscends(g, limits[..n], firsts[..n]);
      assert firsts[n] <= Release(g, limits[n], firsts[n]) <= h[n];
      ExtendAscending(g, h[n]);
      assert h == g + [h[n]];
    }
  }

  lemma {:induction false} ExtendAscending(g: seq<real>, t: real)
    requires Ascending(g) && (g != [] ==> g[|g| - 1] <= t)
    ensures Ascending(g + [t])
  {
    AscendingToSame(g, g + [t], |g|);
  }

  /** Entry i of `Peaks` really is the largest limit of calls 0..i. */
  lemma {:induction false} PeaksAreLargest(limits: seq<nat>, i: nat)
    requires i < |limits|
    ensures Peaks(limits)[i] in limits[..i + 1]
    ensures forall j :: 0 <= j <= i ==> limits[j] <= Peaks(limits)[i]
  {
    var n := |limits| - 1;
    var shorter := limits[..n];
    if i < n {
      PeaksAreLargest(shorter, i);
      assert shorter[..i + 1] == limits[..i + 1];
    } else {
      assert limits[..n + 1] == shorter + [limits[n]];
      if n > 0 {
        PeaksAreLargest(shorter, n - 1);
        assert shorter[..n] == shorter;
      }
    }
  }

  /** Window safety over every run with changing limits, when the clock ticks between a stamp
      and the next call: each stamp is spaced by the largest limit used so far. */
  lemma {:induction false} EveryRunWithinPeak(h: seq<real>, limits: seq<nat>, firsts: seq<real>)
    requires |limits| == |h| == |firsts| && IsRun(h, limits, firsts) && AlwaysTicked(h, firsts)
    ensures BoundedBy(h, Peaks(limits))
  {
    if h != [] {
      var n := |h| - 1;
      EveryRunWithinPeak(h[..n], limits[..n], firsts[..n]);
      RunAscends(h[..n], limits[..n], firsts[..n]);
      IssueKeepsPeakBound(h[..n], Peaks(limits[..n]), limits[n], firsts[n], h[n]);
      assert h == h[..n] + [h[n]];
    }
  }

  /** The number of stamps in [lo, lo + WINDOW). */
  function CountFrom(h: seq<real>, lo: real): nat {
    if h == [] then 0
    else CountFrom(h[..|h| - 1], lo) + if lo <= h[|h| - 1] < lo + WINDOW then 1 else 0
  }

  /** No half-open 60-second interval, wherever it starts, holds more stamps than the largest
      limit used so far. */
  lemma {:induction false} AnyIntervalHoldsAtMostPeak(h: seq<real>, peaks: seq<nat>, lo: real)
    requires Ascending(h) && |peaks| == |h| && AscendingNat(peaks) && BoundedBy(h, peaks)
    ensures CountFrom(h, lo) <= if h == [] then 0 else peaks[|h| - 1]
  {
    if h != [] {
      var n := |h| - 1;
      var shorter := h[..n];
      assert BoundedBy(shorter, peaks[..n]) by {
        forall i: nat | i < n ensures Spaced(shorter, i, peaks[..n][i]) { assert Spaced(h, i, peaks[i]); }
      }
      AscendingToSame(h, shorter, n);
      AnyIntervalHoldsAtMostPeak(shorter, peaks[..n], lo);
      if lo <= h[n] < lo + WINDOW {
        assert Spaced(h, n, peaks[n]);
        if peaks[n] <= n {
          forall i | 0 <= i <= n - peaks[n] ensures h[i] < lo { AscendingAt(h, i, n - peaks[n]); }
          CountAfter(h, lo, n - peaks[n] + 1);
        } else {
          CountAfter(h, lo, 0);
        }
      }
    }
  }

  /** Only stamps at index `from` or later can be counted, if all earlier ones precede `lo`. */
  lemma {:induction false} CountAfter(h: seq<real>, lo: real, from: nat)
    requires from <= |h| && forall i :: 0 <= i < from ==> h[i] < lo
    ensures CountFrom(h, lo) <= |h| - from
  {
    if from < |h| {
      CountAfter(h[..|h| - 1], lo, from);
    } else if h != [] {
      CountAfter(h[..|h| - 1], lo, from - 1);
    }
  }

  /** Both together, over every run: no 60-second interval holds more stamps than the largest
      limit that any of its calls used. */
  lemma {:induction false} EveryIntervalOfEveryRun(h: seq<real>, limits: seq<nat>, firsts: seq<real>, lo: real)
    requires h != [] && |limits| == |h| == |firsts| && IsRun(h, limits, firsts) && AlwaysTicked(h, firsts)
    ensures exists limit :: limit in limits && (forall l :: l in limits ==> l <= limit) && CountFrom(h, lo) <= limit
  {
    var n := |h| - 1;
    EveryRunWithinPeak(h, limits, firsts);
    RunAscends(h, limits, firsts);
    forall i, j | 0 <= i <= j < |limits| ensures Peaks(limits)[i] <= Peaks(limits)[j] {
      PeaksAreLargest(limits, i);
      PeaksAreLargest(limits, j);
    }
    AnyIntervalHoldsAtMostPeak(h, Peaks(limits), lo);
    PeaksAreLargest(limits, n);
    assert limits[..n + 1] == limits;
  }

  /** A tie: after its first pruning the window still holds more than `limit` stamps, and the
      oldest one that must be waited for is younger than the oldest one there. */
  predicate Tie(h: seq<real>, limit: nat, first: real)
    requires 0 < limit
  {
    var w := InWindow(h, first);
    limit < |w| && w[0] < w[|w| - limit]
  }

  /** With one fixed limit a call that goes at its release is safe exactly when it meets no tie;
      a tie needs a first reading equal to the last stamp. */
  lemma {:induction false} SafeExactlyWithoutTie(h: seq<real>, limit: nat, first: real)
    requires 0 < limit && Ascending(h) && Bounded(h, limit) && (h != [] ==> h[|h| - 1] <= first)
    ensures Bounded(h + [Release(h, limit, first)], limit) <==> !Tie(h, limit, first)
    ensures Tie(h, limit, first) ==> !Ticked(h, first) && Release(h, limit, first) == first
    ensures !Tie(h, limit, first) ==> Release(h, limit, first) == Earliest(h, limit, first)
  {
    var n := |h|;
    var w := InWindow(h, first);
    var stamp := Release(h, limit, first);
    var g := h + [stamp];
    if limit <= n {
      StaleIsPrefix(h, first, n - limit);
      if limit < |w| {
        assert Spaced(h, n - 1, limit);
        AscendingAt(h, n - |w|, n - 1 - limit);
        AscendingAt(h, n - |w|, n - limit);
      }
    }
    assert Spaced(g, n, limit) <==> !Tie(h, limit, first);
    forall i: nat | i < n ensures Spaced(g, i, limit) { assert Spaced(h, i, limit); }
  }

  /** A run of calls under one limit whose sleeps last exactly as long as asked. */
  ghost predicate IsExactRun(h: seq<real>, limit: nat, firsts: seq<real>)
    requires |h| == |firsts|
  {
    h != [] ==>
      var n := |h| - 1;
      && IsExactRun(h[..n], limit, firsts[..n])
      && (n > 0 ==> h[n - 1] <= firsts[n])
      && h[n] == Release(h[..n], limit, firsts[n])
  }

  ghost predicate TieFree(h: seq<real>, limit: nat, firsts: seq<real>)
    requires |h| == |firsts| && 0 < limit
  {
    h != [] ==>
      var n := |h| - 1;
      TieFree(h[..n], limit, firsts[..n]) && !Tie(h[..n], limit, firsts[n])
  }

  lemma {:induction false} ExactRunAscends(h: seq<real>, limit: nat, firsts: seq<real>)
    requires |h| == |firsts| && IsExactRun(h, limit, firsts)
    ensures Ascending(h)
  {
    if h != [] {
      var n := |h| - 1;
      var g := h[..n];
      ExactRunAscends(g, limit, firsts[..n]);
      ExtendAscending(g, h[n]);
      assert h == g + [h[n]];
    }
  }

  /** A whole run with exact sleeps and one limit is bounded exactly when no call meets a tie. */
  lemma {:induction false} RunBoundedExactlyWithoutTies(h: seq<real>, limit: nat, firsts: seq<real>)
    requires 0 < limit && |h| == |firsts| && IsExactRun(h, limit, firsts)
    ensures Bounded(h, limit) <==> TieFree(h, limit, firsts)
  {
    if h != [] {
      var n := |h| - 1;
      var g := h[..n];
      RunBoundedExactlyWithoutTies(g, limit, firsts[..n]);
      ExactRunAscends(g, limit, firsts[..n]);
      assert h == g + [h[n]];
      if Bounded(h, limit) {
        forall i: nat | i < n ensures Spaced(g, i, limit) { assert Spaced(h, i, limit); }
      }
      if Bounded(g, limit) {
        SafeExactlyWithoutTie(g, limit, firsts[n]);
      }
    }
  }

  /** The concrete tie: limit 2 and stamps 0, 59, 60, 60, all by exact sleeps. */
  lemma {:induction false} TieBreaksTheBound()
    ensures var h := [0.0, 59.0, 60.0, 60.0]; IsExactRun(h, 2, h) && !Bounded(h, 2)
  {
    var h := [0.0, 59.0, 60.0, 60.0];
    assert h[..3] == [0.0, 59.0, 60.0] && h[..3][..2] == [0.0, 59.0] && [0.0, 59.0][..1] == [0.0] && [0.0][..0] == [];
    assert IsExactRun([0.0], 2, [0.0]);
    assert IsExactRun([0.0, 59.0], 2, [0.0, 59.0]);
    assert IsExactRun([0.0, 59.0, 60.0], 2, [0.0, 59.0, 60.0]);
    assert !Spaced(h, 3, 2);
  }

  /** However many windows a call must leave, it waits at most one window length in all. */
  lemma {:induction false} WaitIsAtMostOneWindow(h: seq<real>, limit: nat, now: real)
    requires 0 < limit && Ascending(h) && (h != [] ==> h[|h| - 1] <= now)
    ensures now <= Earliest(h, limit, now) <= now + WINDOW
  {
    if limit <= |h| { AscendingAt(h, |h| - limit, |h| - 1); }
  }

  /** `Earliest` is the least safe instant: from it on, and never before it, one more stamp is safe. */
  lemma {:induction false} EarliestIsLeastSafe(h: seq<real>, limit: nat, now: real, t: real)
    requires 0 < limit && Ascending(h) && Bounded(h, limit) && now <= t
    ensures Bounded(h + [t], limit) <==> Earliest(h, limit, now) <= t
  {
    var g := h + [t];
    assert Spaced(g, |h|, limit) <==> Earliest(h, limit, now) <= t;
    forall i: nat | i < |h| ensures Spaced(g, i, limit) { assert Spaced(h, i, limit); }
  }

  /** `times` is what is left of `h` after popping stamps that were stale by `now` off the front. */
  ghost predicate Popped(times: seq<real>, h: seq<real>, now: real) {
    if |h| <= |times| then times == h
    else h[0] < now - WINDOW && Popped(times, h[1..], now)
  }

  /** A deque that has only ever dropped stale stamps of an ascending history. */
  ghost predicate Tracks(times: seq<real>, h: seq<real>, now: real) {
    && Ascending(h)
    && (h != [] ==> h[|h| - 1] <= now)
    && Popped(times, h, now)
  }

  lemma {:induction false} PoppedLater(times: seq<real>, h: seq<real>, now: real, later: real)
    requires Popped(times, h, now) && now <= later
    ensures Popped(times, h, later)
  {
    if |times| < |h| { PoppedLater(times, h[1..], now, later); }
  }

  lemma {:induction false} TracksLater(times: seq<real>, h: seq<real>, now: real, later: real)
    requires Tracks(times, h, now) && now <= later
    ensures Tracks(times, h, later)
  {
    PoppedLater(times, h, now, later);
  }

  lemma {:induction false} PoppedPop(times: seq<real>, h: seq<real>, now: real)
    requires Popped(times, h, now) && times != [] && times[0] < now - WINDOW
    ensures Popped(times[1..], h, now)
  {
    if |times| < |h| {
      PoppedPop(times, h[1..], now);
    } else {
      assert Popped(times[1..], h[1..], now);
    }
  }

  /** Once nothing stale is left, the deque is what a scan of the whole history would find. */
  lemma {:induction false} PoppedAll(times: seq<real>, h: seq<real>, now: real)
    requires Popped(times, h, now) && (times != [] ==> now - WINDOW <= times[0])
    ensures times == InWindow(h, now)
  {
    if |times| < |h| {
      PoppedAll(times, h[1..], now);
      StaleFromTail(h, now, 1);
      assert h[1..][Stale(h[1..], now)..] == h[Stale(h, now)..];
    }
  }

  lemma {:induction false} StaleFromTail(h: seq<real>, now: real, i: nat)
    requires 1 <= i <= |h|
    ensures StaleFrom(h, now, i) == StaleFrom(h[1..], now, i - 1) + 1
    decreases |h| - i
  {
    if i < |h| && h[i] < now - WINDOW { StaleFromTail(h, now, i + 1); }
  }

  lemma {:induction false} PoppedAppend(times: seq<real>, h: seq<real>, now: real, stamp: real)
    requires Popped(times, h, now)
    ensures Popped(times + [stamp], h + [stamp], now)
  {
    if |times| < |h| {
      PoppedAppend(times, h[1..], now, stamp);
      assert (h + [stamp])[1..] == h[1..] + [stamp];
    }
  }

  lemma {:induction false} TracksAppend(times: seq<real>, h: seq<real>, stamp: real)
    requires Tracks(times, h, stamp)
    ensures Tracks(times + [stamp], h + [stamp], stamp)
  {
    ExtendAscending(h, stamp);
    PoppedAppend(times, h, stamp, stamp);
  }
}
