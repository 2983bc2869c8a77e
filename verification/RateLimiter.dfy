/** The collector's limiter: queues of stamps under one lock. */
module RateLimiter {
  import opened Clocks
  import opened Options
  import opened SlidingWindow

  /** The pruning loop on a deque with full history `h`: what is left is what a scan of the whole
      history finds. */
  method Prune(times: seq<real>, now: real, ghost h: seq<real>, ghost seen: real) returns (left: seq<real>)
    requires Tracks(times, h, seen) && seen <= now
    ensures Tracks(left, h, now)
    ensures left == InWindow(h, now)
  {
    TracksLater(times, h, seen, now);
    left := times;
    while left != [] && left[0] < now - WINDOW
      invariant Tracks(left, h, now)
    {
      PoppedPop(left, h, now);
      left := left[1..];
    }
    PoppedAll(left, h, now);
  }

  /** Sleeps until the oldest stamp is a window old. */
  method AwaitOldest(oldest: real, clock: Clock)
    modifies clock
    ensures Later(old(clock.now), oldest + WINDOW) <= clock.now
    ensures clock.ideal ==> clock.now == Later(old(clock.now), oldest + WINDOW)
  {
    var sleepUntil := oldest + WINDOW - clock.now;
    if sleepUntil > 0.0 {
      clock.Sleep(sleepUntil);
    }
  }

  /** Waits until the window has room. Fails, as indexing an empty deque does, exactly when a
      limit below one meets an empty window. */
  method DrainWindow(times: seq<real>, limit: int, clock: Clock, ghost h: seq<real>)
    returns (left: seq<real>, ok: bool, ghost first: real)
    requires Tracks(times, h, clock.now)
    modifies clock
    ensures Tracks(left, h, clock.now)
    ensures old(clock.now) <= first <= clock.now
    ensures ok <==> !Empty(h, limit, first)
    ensures ok ==> Release(h, limit, first) <= clock.now
    ensures clock.ideal ==> first == old(clock.now)
    ensures clock.ideal && ok ==> clock.now == Release(h, limit, first)
  {
    ghost var before := clock.now;
    var now := clock.Now();
    first := now;
    left := Prune(times, now, h, before);
    ghost var release := ReleaseFrom(left, limit, first);
    ok := |left| < limit || left != [];
    if |left| >= limit && ok {
      AwaitOldest(left[0], clock);
      now := clock.Now();
      left := Prune(left, now, h, first);
    }
    assert Release(h, limit, first) == release;
  }

  /** The outcome of one call: a recorded stamp, or the error of indexing an empty deque. */
  datatype Outcome = Stamped(stamp: real) | IndexError

  /** Calls per minute of an account tier. */
  function PointsToLimit(points: int): int {
    if 5000 <= points then 500 else if 2000 <= points then 200 else 50
  }

  /** The earliest instant not before `now` that both the account window and the interface
      window, if there is one, admit. */
  function EarliestForBoth(account: seq<real>, limit: nat, api: seq<real>, apiLimit: Option<int>, now: real): real
    requires 0 < limit && (apiLimit.Some? ==> 0 < apiLimit.value)
  {
    if apiLimit.None? then Earliest(account, limit, now)
    else Later(Earliest(account, limit, now), Earliest(api, apiLimit.value, now))
  }

  /** When a call leaves the account window and then, if capped, the interface window. */
  function ReleaseFromBoth(account: seq<real>, limit: int, api: seq<real>, apiLimit: Option<int>, first: real): real {
    var t := Release(account, limit, first);
    if apiLimit.None? then t else Release(api, apiLimit.value, t)
  }

  /** Leaving the account window first and the interface window second loses nothing: when the
      clock has ticked, the call leaves at the earliest instant that both windows admit. */
  lemma {:induction false} ReleaseIsEarliestForBoth(account: seq<real>, limit: nat, api: seq<real>,
        apiLimit: Option<int>, first: real)
    requires 0 < limit && Ascending(account) && Bounded(account, limit) && Ticked(account, first)
    requires apiLimit.Some? ==>
      0 < apiLimit.value && Ascending(api) && Bounded(api, apiLimit.value) && Ticked(api, first)
    ensures ReleaseFromBoth(account, limit, api, apiLimit, first) ==
            EarliestForBoth(account, limit, api, apiLimit, first)
  {
    SafeExactlyWithoutTie(account, limit, first);
    if apiLimit.Some? {
      SafeExactlyWithoutTie(api, apiLimit.value, Release(account, limit, first));
    }
  }

  lemma {:induction false} EarliestForBothIsWithinOneWindow(account: seq<real>, limit: nat, api: seq<real>,
        apiLimit: Option<int>, now: real)
    requires 0 < limit && (apiLimit.Some? ==> 0 < apiLimit.value)
    requires Ascending(account) && (account != [] ==> account[|account| - 1] <= now)
    requires Ascending(api) && (api != [] ==> api[|api| - 1] <= now)
    ensures now <= EarliestForBoth(account, limit, api, apiLimit, now) <= now + WINDOW
  {
    WaitIsAtMostOneWindow(account, limit, now);
    if apiLimit.Some? { WaitIsAtMostOneWindow(api, apiLimit.value, now); }
  }

  class Limiter {
    const clock: Clock
    const settingsCap: Option<int>
    const accountPoints: int
    const interfaceLimits: map<string, int>
    var callTimes: seq<real>
    var apiCallTimes: map<string, seq<real>>
    ghost var history: seq<real>                   // every stamp ever recorded
    ghost var apiHistory: map<string, seq<real>>   // and those of each capped interface
    ghost var peaks: seq<nat>                      // the largest account limit used up to each stamp
    ghost var ticked: bool                         // the clock moved between every stamp and the next call

    constructor (clock: Clock, settingsCap: Option<int>, accountPoints: int, interfaceLimits: map<string, int>)
      ensures Valid() && Safe() && ticked && history == [] && apiHistory == map[]
      ensures this.clock == clock && this.settingsCap == settingsCap && this.accountPoints == accountPoints
      ensures this.interfaceLimits == interfaceLimits
    {
      this.clock, this.settingsCap, this.accountPoints := clock, settingsCap, accountPoints;
      this.interfaceLimits := interfaceLimits;
      callTimes, apiCallTimes, history, apiHistory, peaks, ticked := [], map[], [], map[], [], true;
    }

    /** The state between calls: every deque has dropped only stale stamps. */
    ghost predicate Valid()
      reads this, clock
    {
      ValidAt(clock.now)
    }

    ghost predicate ValidAt(now: real)
      reads this
    {
      Tracks(callTimes, history, now) && DequesOk(apiCallTimes, apiHistory, now)
    }

    /** While the clock has always ticked, the account history and every interface history obey
        their limits. */
    ghost predicate Safe()
      reads this
    {
      AccountOk(history, peaks, ticked) && ApisOk(apiHistory, history, interfaceLimits, ticked)
    }

    function MaxCallsPerMinute(limitOverride: Option<int>): int {
      match (limitOverride, settingsCap)
      case (Some(limit), _) => limit
      case (None, Some(cap)) => cap
      case (None, None) => PointsToLimit(accountPoints)
    }

    /** The cap of a named interface; an empty name counts as no name. */
    function ApiLimit(api: Option<string>): Option<int> {
      if api.Some? && api.value != "" && api.value in interfaceLimits
      then Some(interfaceLimits[api.value]) else None
    }

    method DrainAccount(limit: int) returns (ok: bool, ghost first: real)
      requires Valid()
      modifies this`callTimes, clock
      ensures Valid()
      ensures old(clock.now) <= first <= clock.now
      ensures ok ==> Admitted(history, limit, first, clock.now)
      ensures !ok <==> Empty(history, limit, first)
      ensures clock.ideal ==> first == old(clock.now)
      ensures clock.ideal && ok ==> clock.now == Release(history, limit, first)
    {
      ghost var before := clock.now;
      callTimes, ok, first := DrainWindow(callTimes, limit, clock, history);
      DequesLater(apiCallTimes, apiHistory, before, clock.now);
    }

    /** Drains the deque of an interface; a missing one is created empty. */
    method DrainApi(a: string) returns (ok: bool, ghost first: real)
      requires Valid() && a in interfaceLimits
      modifies this`apiCallTimes, clock
      ensures Valid() && a in apiCallTimes
      ensures old(clock.now) <= first <= clock.now
      ensures var h := HistoryOf(apiHistory, a);
              && (ok ==> Admitted(h, interfaceLimits[a], first, clock.now))
              && (!ok <==> Empty(h, interfaceLimits[a], first))
              && (clock.ideal && ok ==> clock.now == Release(h, interfaceLimits[a], first))
      ensures clock.ideal ==> first == old(clock.now)
    {
      ghost var before := clock.now;
      var times := if a in apiCallTimes then apiCallTimes[a] else [];
      times, ok, first := DrainWindow(times, interfaceLimits[a], clock, HistoryOf(apiHistory, a));
      TracksLater(callTimes, history, before, clock.now);
      DequesLater(apiCallTimes, apiHistory, before, clock.now);
      apiCallTimes := apiCallTimes[a := times];
    }

    /** Records a stamp on the account window and, when there is one, on an interface window. */
    method Record(limit: int, api: Option<string>, ghost first: real, ghost apiFirst: real) returns (stamp: real)
      requires Valid() && Safe()
      requires Admitted(history, limit, first, clock.now) && first <= apiFirst
      requires api.Some? ==>
        && api.value in apiCallTimes && api.value in interfaceLimits
        && Admitted(HistoryOf(apiHistory, api.value), interfaceLimits[api.value], apiFirst, clock.now)
      modifies this, clock
      ensures Valid() && Safe()
      ensures old(clock.now) <= stamp == clock.now && (clock.ideal ==> stamp == old(clock.now))
      ensures history == old(history) + [stamp]
      ensures peaks == old(peaks) + [NextPeak(old(peaks), limit)]
      ensures ticked == (old(ticked) && Ticked(old(history), first))
      ensures apiHistory == if api.Some? then Extended(old(apiHistory), api.value, stamp) else old(apiHistory)
    {
      ghost var before := clock.now;
      stamp := clock.Now();
      TracksLater(callTimes, history, before, stamp);
      DequesLater(apiCallTimes, apiHistory, before, stamp);
      TracksAppend(callTimes, history, stamp);
      AccountOkAfter(history, peaks, ticked, limit, first, stamp);
      ApisOkAfter(apiHistory, history, interfaceLimits, ticked, api, first, apiFirst, stamp);
      if api.Some? {
        DequesAppend(apiCallTimes, apiHistory, api.value, stamp);
        apiCallTimes := apiCallTimes[api.value := apiCallTimes[api.value] + [stamp]];
        apiHistory := Extended(apiHistory, api.value, stamp);
      }
      peaks := peaks + [NextPeak(peaks, limit)];
      ticked := ticked && Ticked(history, first);
      callTimes := callTimes + [stamp];
      history := history + [stamp];
    }

    /** One call under a given limit, inside the lock. No stamp leaves before both windows release
        it, and on an ideal clock it leaves exactly then (see ReleaseIsEarliestForBoth). It fails
        exactly when a limit below one meets an empty window, and then it records nothing. */
    method CallUnder(limit: int, api: Option<string>)
      returns (r: Outcome, ghost first: real, ghost apiFirst: real)
      requires Valid() && Safe()
      requires api.Some? ==> api.value in interfaceLimits
      modifies this, clock
      ensures Valid() && Safe()
      ensures old(clock.now) <= first <= apiFirst <= clock.now
      ensures r.IndexError? <==>
                || Empty(old(history), limit, first)
                || (api.Some? && Empty(HistoryOf(old(apiHistory), api.value), interfaceLimits[api.value], apiFirst))
      ensures match r
              case IndexError =>
                && history == old(history) && apiHistory == old(apiHistory)
                && peaks == old(peaks) && ticked == old(ticked)
              case Stamped(stamp) =>
                && history == old(history) + [stamp]
                && apiHistory == (if api.Some? then Extended(old(apiHistory), api.value, stamp) else old(apiHistory))
                && peaks == old(peaks) + [NextPeak(old(peaks), limit)]
                && ticked == (old(ticked) && Ticked(old(history), first))
                && Issues(old(history), limit, first, stamp)
                && (old(history) == [] ==> 0 < limit)
                && (api.Some? ==>
                      Issues(HistoryOf(old(apiHistory), api.value), interfaceLimits[api.value], apiFirst, stamp))
                && (clock.ideal ==>
                      stamp == ReleaseFromBoth(old(history), limit, HistoryOf(old(apiHistory), api.GetOr("")),
                          if api.Some? then Some(interfaceLimits[api.value]) else None, first))
    {
      var ok;
      ok, first := DrainAccount(limit);
      apiFirst := clock.now;
      if !ok {
        return IndexError, first, apiFirst;
      }
      if api.Some? {
        ok, apiFirst := DrainApi(api.value);
        if !ok {
          return IndexError, first, apiFirst;
        }
      }
      var stamp := Record(limit, api, first, apiFirst);
      r := Stamped(stamp);
    }

    /** One limited call. Its limit is the caller's own, else that of the settings, else that of the
        account's tier; a capped interface has its cap as well. It records exactly one stamp on the
        account history and, for a capped interface, the same stamp on that interface's history. */
    method WaitBeforeProCall(limitOverride: Option<int>, api: Option<string>)
      returns (r: Outcome, ghost first: real, ghost apiFirst: real)
      requires Valid() && Safe()
      modifies this, clock
      ensures Valid() && Safe()
      ensures old(clock.now) <= first <= apiFirst <= clock.now
      ensures limitOverride.Some? ==> Obeys(old(history), old(peaks), limitOverride.value, first, r, peaks)
      ensures limitOverride.None? && settingsCap.Some? ==>
                Obeys(old(history), old(peaks), settingsCap.value, first, r, peaks)
      ensures limitOverride.None? && settingsCap.None? ==>
                && (5000 <= accountPoints ==> Obeys(old(history), old(peaks), 500, first, r, peaks))
                && (2000 <= accountPoints < 5000 ==> Obeys(old(history), old(peaks), 200, first, r, peaks))
                && (accountPoints < 2000 ==> Obeys(old(history), old(peaks), 50, first, r, peaks))
      ensures api.Some? && api.value != "" && api.value in interfaceLimits ==>
                ObeysCap(old(apiHistory), api.value, interfaceLimits[api.value], apiFirst, r, apiHistory)
      ensures api.None? || api.value == "" || api.value !in interfaceLimits ==> apiHistory == old(apiHistory)
      ensures var apiLimit := ApiLimit(api);
              r.IndexError? <==>
                || Empty(old(history), MaxCallsPerMinute(limitOverride), first)
                || (apiLimit.Some? && Empty(HistoryOf(old(apiHistory), api.value), apiLimit.value, apiFirst))
      ensures match r
              case IndexError =>
                && history == old(history) && apiHistory == old(apiHistory)
                && peaks == old(peaks) && ticked == old(ticked)
              case Stamped(stamp) =>
                && history == old(history) + [stamp]
                && ticked == (old(ticked) && Ticked(old(history), first))
                && (clock.ideal ==>
                      stamp == ReleaseFromBoth(old(history), MaxCallsPerMinute(limitOverride),
                          HistoryOf(old(apiHistory), api.GetOr("")), ApiLimit(api), first))
    {
      var limit := MaxCallsPerMinute(limitOverride);
      r, first, apiFirst := CallUnder(limit, if ApiLimit(api).Some? then api else None);
      if r.Stamped? { PeakIsLimitOrLast(old(peaks), limit); }
      assert Obeys(old(history), old(peaks), limit, first, r, peaks);
    }
  }

  /** What a limit means for one call: the call leaves no account window of that limit before its
      release, fails when the limit lets nothing through, and from then on the largest limit used is
      the limit itself or the largest one before it, whichever is larger. */
  ghost predicate Obeys(h: seq<real>, peaks: seq<nat>, limit: int, first: real, r: Outcome, after: seq<nat>) {
    && (r.Stamped? ==>
          && Issues(h, limit, first, r.stamp)
          && after != [] && peaks == after[..|after| - 1] && limit <= after[|after| - 1]
          && (peaks != [] ==> peaks[|peaks| - 1] <= after[|after| - 1])
          && (after[|after| - 1] == limit || (peaks != [] && after[|after| - 1] == peaks[|peaks| - 1])))
    && (limit <= 0 && InWindow(h, first) == [] ==> r.IndexError?)
  }

  /** The same for the cap of an interface, whose history gets the same stamp. */
  ghost predicate ObeysCap(hist: map<string, seq<real>>, a: string, cap: int, first: real, r: Outcome,
      after: map<string, seq<real>>) {
    && (r.Stamped? ==>
          && Issues(HistoryOf(hist, a), cap, first, r.stamp)
          && after == hist[a := HistoryOf(hist, a) + [r.stamp]])
    && (r.IndexError? ==> after == hist)
  }

  lemma {:induction false} PeakIsLimitOrLast(peaks: seq<nat>, limit: int)
    requires peaks == [] ==> 0 < limit
    ensures var after := peaks + [NextPeak(peaks, limit)];
            && after[..|after| - 1] == peaks && limit <= after[|after| - 1]
            && (peaks != [] ==> peaks[|peaks| - 1] <= after[|after| - 1])
            && (after[|after| - 1] == limit || (peaks != [] && after[|after| - 1] == peaks[|peaks| - 1]))
  {
  }

  /** A limit below one meets an empty window at its first reading. */
  ghost predicate Empty(h: seq<real>, limit: int, first: real) {
    limit <= 0 && InWindow(h, first) == []
  }

  ghost function HistoryOf(hist: map<string, seq<real>>, a: string): seq<real> {
    if a in hist then hist[a] else []
  }

  ghost predicate DequesOk(times: map<string, seq<real>>, hist: map<string, seq<real>>, now: real) {
    hist.Keys <= times.Keys && forall a :: a in times ==> Tracks(times[a], HistoryOf(hist, a), now)
  }

  ghost predicate ApisOk(hist: map<string, seq<real>>, account: seq<real>, limits: map<string, int>, ticked: bool) {
    forall a :: a in hist ==> a in limits && ApiOk(hist[a], account, limits[a], ticked)
  }

  lemma {:induction false} DequesLater(times: map<string, seq<real>>, hist: map<string, seq<real>>, now: real,
        later: real)
    requires DequesOk(times, hist, now) && now <= later
    ensures DequesOk(times, hist, later)
  {
    forall a | a in times ensures Tracks(times[a], HistoryOf(hist, a), later) {
      TracksLater(times[a], HistoryOf(hist, a), now, later);
    }
  }

  /** The interface histories with one more stamp for `a`. */
  ghost function Extended(hist: map<string, seq<real>>, a: string, stamp: real): map<string, seq<real>> {
    hist[a := HistoryOf(hist, a) + [stamp]]
  }

  lemma {:induction false} DequesAppend(times: map<string, seq<real>>, hist: map<string, seq<real>>, a: string,
        stamp: real)
    requires DequesOk(times, hist, stamp) && a in times
    ensures DequesOk(times[a := times[a] + [stamp]], Extended(hist, a, stamp), stamp)
  {
    TracksAppend(times[a], HistoryOf(hist, a), stamp);
  }

  /** Recording a stamp keeps every interface within its cap. */
  lemma {:induction false} ApisOkAfter(hist: map<string, seq<real>>, account: seq<real>, limits: map<string, int>,
        ticked: bool, api: Option<string>, first: real, apiFirst: real, stamp: real)
    requires ApisOk(hist, account, limits, ticked)
    requires forall a :: a in hist ==> Ascending(hist[a])
    requires (account != [] ==> account[|account| - 1] <= stamp) && first <= apiFirst
    requires api.Some? ==>
               api.value in limits && Admitted(HistoryOf(hist, api.value), limits[api.value], apiFirst, stamp)
    ensures ApisOk(if api.Some? then Extended(hist, api.value, stamp) else hist, account + [stamp], limits, ticked
            && Ticked(account, first))
  {
    forall a | a in hist ensures ApiOk(hist[a], account + [stamp], limits[a], ticked && Ticked(account, first)) {
      ApiOkAfter(hist[a], account, limits[a], ticked, first, stamp);
    }
    if api.Some? {
      var a := api.value;
      assert ApiOk(HistoryOf(hist, a), account, limits[a], ticked);
      ApiOkWith(HistoryOf(hist, a), account, limits[a], ticked, first, apiFirst, stamp);
    }
  }

  /** The largest limit used so far, once `limit` is used too. */
  function NextPeak(peaks: seq<nat>, limit: int): nat {
    if peaks == [] || peaks[|peaks| - 1] < limit then (if limit < 0 then 0 else limit) else peaks[|peaks| - 1]
  }

  /** A call that was let through: it left its window, and a limit below one lets nothing
      through an empty window. */
  ghost predicate Admitted(h: seq<real>, limit: int, first: real, stamp: real) {
    Issues(h, limit, first, stamp) && (h == [] ==> 0 < limit)
  }

  ghost predicate AccountOk(h: seq<real>, peaks: seq<nat>, ticked: bool) {
    && |peaks| == |h|
    && (forall p :: p in peaks ==> 0 < p)
    && (ticked ==> BoundedBy(h, peaks))
  }

  ghost predicate ApiOk(h: seq<real>, account: seq<real>, limit: int, ticked: bool) {
    && (h != [] ==> account != [] && h[|h| - 1] <= account[|account| - 1] && 0 < limit)
    && (ticked && 0 < limit ==> Bounded(h, limit))
  }

  lemma {:induction false} AccountOkAfter(h: seq<real>, peaks: seq<nat>, ticked: bool, limit: int, first: real,
        stamp: real)
    requires Ascending(h) && AccountOk(h, peaks, ticked) && Admitted(h, limit, first, stamp)
    ensures AccountOk(h + [stamp], peaks + [NextPeak(peaks, limit)], ticked && Ticked(h, first))
  {
    assert peaks != [] ==> peaks[|peaks| - 1] in peaks;
    if ticked && Ticked(h, first) { IssueKeepsPeakBound(h, peaks, limit, first, stamp); }
  }

  lemma {:induction false} ApiOkAfter(h: seq<real>, account: seq<real>, limit: int, ticked: bool, first: real,
        stamp: real)
    requires ApiOk(h, account, limit, ticked) && (account != [] ==> account[|account| - 1] <= stamp)
    ensures ApiOk(h, account + [stamp], limit, ticked && Ticked(account, first))
  {
  }

  lemma {:induction false} ApiOkWith(h: seq<real>, account: seq<real>, limit: int, ticked: bool, first: real,
        apiFirst: real, stamp: real)
    requires Ascending(h) && ApiOk(h, account, limit, ticked)
    requires Admitted(h, limit, apiFirst, stamp) && first <= apiFirst
    ensures ApiOk(h + [stamp], account + [stamp], limit, ticked && Ticked(account, first))
  {
    if ticked && Ticked(account, first) { IssueKeepsBound(h, limit, apiFirst, stamp); }
  }
}
