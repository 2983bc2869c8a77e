/** How a backfill is cut into chunks, and continuing from a later chunk. */
module ChunkLoops {
  import opened Options
  import opened Slices
  import opened TradingCalendar

  const API_BUDGET: nat := 200

  /** The units of one chunk: trading days per chunk as asked for, at least one, within the budget. */
  function ChunkBudget(chunkDays: int): (n: nat)
    ensures 1 <= n <= 200 && (1 <= chunkDays <= 200 ==> n == chunkDays)
    ensures (chunkDays < 1 ==> n == 1) && (200 < chunkDays ==> n == 200)
  {
    if chunkDays < 1 then 1 else if API_BUDGET < chunkDays then API_BUDGET else chunkDays
  }

  /** The first unit of a chunk counted from one. */
  function ChunkStartOffset(fromChunk: int, perChunk: nat): (offset: nat) {
    if fromChunk <= 1 then 0
    else
      OffsetIsNat(fromChunk - 1, perChunk);
      (fromChunk - 1) * perChunk
  }

  /** How many chunks are planned for `total` units. */
  function PlannedChunks(total: nat, size: nat): (n: nat)
    requires 0 < size
    ensures 1 <= n
  {
    var chunks := (total + size - 1) / size;
    if chunks < 1 then 1 else chunks
  }

  /** The codes of one rotation and how many rotations are planned, for `periods` reporting periods. */
  function CodesPerRun(periods: nat): (n: nat)
    ensures 1 <= n
  {
    var n := API_BUDGET / (if periods < 1 then 1 else periods);
    if n < 1 then 1 else n
  }

  /** One run calls the interface once per code and period; that stays within the budget exactly
      when there are no more periods than the budget. */
  lemma RunFitsBudgetExactly(periods: nat)
    ensures CodesPerRun(periods) * periods <= 200 <==> periods <= 200
    ensures 1 <= periods <= 200 ==> 200 < CodesPerRun(periods) * periods + periods
    ensures periods == 0 ==> CodesPerRun(periods) == 200
    ensures 200 < periods ==> CodesPerRun(periods) == 1
  {
    if 1 <= periods <= API_BUDGET {
      var q := API_BUDGET / periods;
      assert q * periods <= API_BUDGET < q * periods + periods;
    } else if API_BUDGET < periods {
      assert API_BUDGET / periods == 0;
    }
  }

  /** A full run takes exactly the planned number of chunks if and only if there is a unit. */
  lemma FullRunTakesPlannedChunks<T>(units: seq<T>, size: nat)
    requires 0 < size
    ensures |Pieces(units, 0, size)| == PlannedChunks(|units|, size) <==> units != []
  {
    PiecesCount(units, 0, size);
    if units != [] { DivStep(|units| - 1, size); }
  }

  /** Stopping after k chunks and continuing from chunk k + 1 is one full run. */
  lemma StopAndContinue<T>(units: seq<T>, size: nat, k: nat)
    requires 0 < size && k <= |Pieces(units, 0, size)|
    ensures Pieces(units, 0, size)[..k] + Pieces(units, ChunkStartOffset(k + 1, size), size) == Pieces(units, 0, size)
  {
    PiecesSplit(units, 0, size, k);
    FurtherIsProduct(0, size, k);
  }

  // ----- The loops -----

  /** How far a loop may go: --max-chunks counts the chunks of this session. */
  predicate Exhausted(maxChunks: Option<int>, session: nat) {
    maxChunks.Some? && maxChunks.value <= session
  }

  /** The chunks that a loop runs when nothing fails. */
  function Allowed<T>(pieces: seq<T>, maxChunks: Option<int>): seq<T> {
    if maxChunks.None? || |pieces| <= maxChunks.value then pieces
    else if maxChunks.value <= 0 then []
    else pieces[..maxChunks.value]
  }

  lemma {:induction false} AllowedSoFar<T>(pieces: seq<T>, ran: seq<T>, rest: seq<T>, maxChunks: Option<int>)
    requires pieces == ran + rest
    requires maxChunks.Some? ==> |ran| <= (if maxChunks.value < 0 then 0 else maxChunks.value)
    ensures ran <= Allowed(pieces, maxChunks)
    ensures rest == [] || Exhausted(maxChunks, |ran|) ==> ran == Allowed(pieces, maxChunks)
  {
    assert ran == pieces[..|ran|];
  }

  /** What the collector fetches when it is handed the first and the last day of a chunk. */
  method CollectDays(ghost start: Day, ghost end: Day, holidays: set<Day>, allDays: seq<Day>, i: nat, j: nat)
    returns (collected: seq<Day>)
    requires allDays == DaysToFetch(start, end, holidays) && i < j <= |allDays|
    ensures collected == allDays[i..j]
  {
    StretchIsDerivedAgain(start, end, holidays, i, j);
    collected := TradingDaysInRange(allDays[i], allDays[j - 1], holidays);
  }

  /** Trade-date mode. A chunk is handed on as its first and last day, from which the collector
      derives the days again. A failing chunk is the last one; without failures exactly the allowed
      pieces of the planned days are collected, and a run without --max-chunks reports completion. */
  method RunTradeDate(start: Day, end: Day, holidays: set<Day>, budget: nat, fromChunk: int, maxChunks: Option<int>)
    returns (ran: seq<seq<Day>>, chunksDone: int, completed: bool, failed: bool)
    requires 0 < budget && 1 <= fromChunk
    ensures var pieces := Pieces(DaysToFetch(start, end, holidays), ChunkStartOffset(fromChunk, budget), budget);
            && ran <= Allowed(pieces, maxChunks)
            && (!failed ==> ran == Allowed(pieces, maxChunks))
            && (failed ==> ran != [])
    ensures chunksDone == fromChunk - 1 + |ran|
    ensures completed <==> !failed
  {
    var allDays := TradingDaysInRange(start, end, holidays);
    var startIdx := ChunkStartOffset(fromChunk, budget);
    ghost var pieces := Pieces(allDays, startIdx, budget);
    var i := startIdx;
    ran, chunksDone, failed := [], fromChunk - 1, false;
    while i < |allDays|
      invariant pieces == ran + Pieces(allDays, i, budget)
      invariant chunksDone == fromChunk - 1 + |ran|
      invariant i < |allDays| || Pieces(allDays, i, budget) == []
      invariant maxChunks.Some? ==> |ran| <= (if maxChunks.value < 0 then 0 else maxChunks.value)
      decreases |allDays| - i
    {
      if Exhausted(maxChunks, |ran|) {
        break;
      }
      var j := Upto(i + budget, |allDays|);
      var collected := CollectDays(start, end, holidays, allDays, i, j);
      JoinOne(ran, collected, Pieces(allDays, i + budget, budget));
      chunksDone := chunksDone + 1;
      ran := ran + [collected];
      failed := *;
      if failed {
        AllowedSoFar(pieces, ran, Pieces(allDays, i + budget, budget), maxChunks);
        return ran, chunksDone, false, true;
      }
      i := i + budget;
    }
    failed := false;
    AllowedSoFar(pieces, ran, Pieces(allDays, i, budget), maxChunks);
    FullFromLaterChunk(allDays, budget, fromChunk);
    completed := maxChunks.Some? || chunksDone >= PlannedChunks(|allDays|, budget);
  }

  /** The chunks before the offset and those after it add up to the plan, or more. */
  lemma {:induction false} FullFromLaterChunk<T>(units: seq<T>, size: nat, fromChunk: int)
    requires 0 < size && units != [] && 1 <= fromChunk
    ensures PlannedChunks(|units|, size) <= fromChunk - 1 + |Pieces(units, ChunkStartOffset(fromChunk, size), size)|
  {
    FullRunTakesPlannedChunks(units, size);
    if fromChunk - 1 <= |Pieces(units, 0, size)| { StopAndContinue(units, size, fromChunk - 1); }
  }

  /** Rotation mode: each chunk starts `size` codes further on. What it collects depends on how the
      collector picks codes (see Selected below). */
  method RunRotation(codes: seq<string>, size: nat, fromChunk: int, maxChunks: Option<int>)
    returns (ran: seq<seq<string>>, chunksDone: int, completed: bool, failed: bool)
    requires 0 < size && codes != [] && 1 <= fromChunk
    ensures var pieces := Rotations(codes, ChunkStartOffset(fromChunk, size), size);
            && ran <= Allowed(pieces, maxChunks)
            && (!failed ==> ran == Allowed(pieces, maxChunks))
            && (failed ==> ran != [])
    ensures chunksDone == fromChunk - 1 + |ran|
    ensures completed <==> !failed
  {
    var offset := ChunkStartOffset(fromChunk, size);
    ghost var pieces := Rotations(codes, offset, size);
    ran, chunksDone, failed := [], fromChunk - 1, false;
    while offset < |codes|
      invariant pieces == ran + Rotations(codes, offset, size)
      invariant chunksDone == fromChunk - 1 + |ran|
      invariant offset < |codes| || Rotations(codes, offset, size) == []
      invariant maxChunks.Some? ==> |ran| <= (if maxChunks.value < 0 then 0 else maxChunks.value)
      decreases |codes| - offset
    {
      if Exhausted(maxChunks, |ran|) {
        break;
      }
      JoinOne(ran, Selected(codes, size, offset), Rotations(codes, offset + size, size));
      chunksDone := chunksDone + 1;
      ran := ran + [Selected(codes, size, offset)];
      failed := *;
      if failed {
        AllowedSoFar(pieces, ran, Rotations(codes, offset + size, size), maxChunks);
        return ran, chunksDone, false, true;
      }
      offset := offset + size;
    }
    failed := false;
    AllowedSoFar(pieces, ran, Rotations(codes, offset, size), maxChunks);
    FullFromLaterChunk(codes, size, fromChunk);
    RotationsAreAsMany(codes, ChunkStartOffset(fromChunk, size), size);
    completed := maxChunks.Some? || chunksDone >= PlannedChunks(|codes|, size);
  }

  /** Period mode: rotations over the codes, as many codes per run as the periods leave room for,
      and never more chunks than planned. */
  method RunPeriod(codes: seq<string>, periods: nat, fromChunk: int, maxChunks: Option<int>)
    returns (ran: seq<seq<string>>, chunksDone: int, completed: bool, failed: bool)
    requires codes != [] && 1 <= fromChunk
    ensures var size := CodesPerRun(periods);
            var pieces := Rotations(codes, ChunkStartOffset(fromChunk, size), size);
            && ran <= Allowed(pieces, maxChunks)
            && (!failed ==> ran == Allowed(pieces, maxChunks))
            && (failed ==> ran != [])
    ensures chunksDone == fromChunk - 1 + |ran|
    ensures completed <==> !failed
  {
    var size := CodesPerRun(periods);
    var planned := PlannedChunks(|codes|, size);
    var total: int := if maxChunks.Some? && fromChunk - 1 + maxChunks.value < planned then
        fromChunk - 1 + maxChunks.value else planned;
    var offset := ChunkStartOffset(fromChunk, size);
    ghost var pieces := Rotations(codes, offset, size);
    RotationsAreAsMany(codes, offset, size);
    PiecesFromChunk(codes, size, fromChunk);
    ran, chunksDone, failed := [], fromChunk - 1, false;
    while offset < |codes| && chunksDone < total
      invariant pieces == ran + Rotations(codes, offset, size)
      invariant chunksDone == fromChunk - 1 + |ran|
      invariant offset < |codes| || Rotations(codes, offset, size) == []
      invariant maxChunks.Some? ==> |ran| <= (if maxChunks.value < 0 then 0 else maxChunks.value)
      decreases |codes| - offset
    {
      if Exhausted(maxChunks, |ran|) {
        break;
      }
      JoinOne(ran, Selected(codes, size, offset), Rotations(codes, offset + size, size));
      chunksDone := chunksDone + 1;
      ran := ran + [Selected(codes, size, offset)];
      failed := *;
      if failed {
        AllowedSoFar(pieces, ran, Rotations(codes, offset + size, size), maxChunks);
        return ran, chunksDone, false, true;
      }
      offset := offset + size;
    }
    failed := false;
    AllowedSoFar(pieces, ran, Rotations(codes, offset, size), maxChunks);
    completed := maxChunks.Some? || chunksDone >= total;
  }

  /** Market-wide period mode: one chunk whatever was asked for. Without --max-chunks it reports
      completion exactly when it does not fail and there are no more periods than the budget: with
      more, the plan has several chunks, and the one that fetches them all never completes it. */
  method RunMarketPeriods(periods: nat, maxChunks: Option<int>) returns (chunksDone: nat, completed: bool, failed: bool)
    ensures chunksDone == 1
    ensures completed <==> !failed && (maxChunks.Some? || periods <= 200)
  {
    var total := PlannedChunks(periods, API_BUDGET);
    failed := *;
    chunksDone := 1;
    completed := !failed && (maxChunks.Some? || chunksDone >= total);
  }

  /** Within the plan, a later chunk has exactly the planned chunks from there on before it. */
  lemma {:induction false} PiecesFromChunk<T>(units: seq<T>, size: nat, fromChunk: int)
    requires 0 < size && units != [] && 1 <= fromChunk
    ensures var ahead := |Pieces(units, ChunkStartOffset(fromChunk, size), size)|;
            var planned := PlannedChunks(|units|, size);
            ahead == if fromChunk - 1 <= planned then planned - (fromChunk - 1) else 0
  {
    FullRunTakesPlannedChunks(units, size);
    var k := fromChunk - 1;
    var planned := |Pieces(units, 0, size)|;
    if k <= planned {
      StopAndContinue(units, size, k);
    } else {
      PiecesSplit(units, 0, size, planned);
      FurtherIsProduct(0, size, planned);
      assert k * size == planned * size + (k - planned) * size;
      OffsetIsNat(k - planned, size);
      assert |units| <= planned * size;
    }
  }

  // ----- What the collector picks for an offset -----

  /** At most `size` codes from `offset` on, going round to the first code after the last one. */
  function Selected(codes: seq<string>, size: nat, offset: nat): seq<string> {
    if |codes| <= size then codes
    else
      var start := offset % |codes|;
      (codes[start..] + codes[..start])[..size]
  }

  /** What the chunks from an offset on collect. */
  function Rotations(codes: seq<string>, offset: nat, size: nat): seq<seq<string>>
    requires 0 < size
    decreases |codes| - offset
  {
    if |codes| <= offset then []
    else [Selected(codes, size, offset)] + Rotations(codes, offset + size, size)
  }

  /** Stopping after k rotations and continuing from chunk k + 1 is one full run, in the rotation
      mode and in the period mode. */
  lemma StopAndContinueRotations(codes: seq<string>, size: nat, k: nat)
    requires 0 < size && k <= |Rotations(codes, 0, size)|
    ensures Rotations(codes, 0, size)[..k] + Rotations(codes, ChunkStartOffset(k + 1, size), size) ==
            Rotations(codes, 0, size)
  {
    RotationsSplit(codes, 0, size, k);
    FurtherIsProduct(0, size, k);
  }

  lemma {:induction false} RotationsSplit(codes: seq<string>, lo: nat, size: nat, k: nat)
    requires 0 < size && k <= |Rotations(codes, lo, size)|
    ensures Rotations(codes, lo, size)[..k] + Rotations(codes, Further(lo, size, k), size) == Rotations(codes, lo, size)
    decreases k
  {
    if 0 < k {
      var first, later := Selected(codes, size, lo), Rotations(codes, lo + size, size);
      RotationsSplit(codes, lo + size, size, k - 1);
      SplitCons(first, later, k, Rotations(codes, Further(lo + size, size, k - 1), size));
    }
  }

  lemma {:induction false} RotationsAreAsMany(codes: seq<string>, offset: nat, size: nat)
    requires 0 < size
    ensures |Rotations(codes, offset, size)| == |Pieces(codes, offset, size)|
    decreases |codes| - offset
  {
    if offset < |codes| { RotationsAreAsMany(codes, offset + size, size); }
  }

  /** How far past the end the last chunk reaches. */
  function Overrun(total: nat, offset: nat, size: nat): nat
    requires 0 < size
    decreases total - offset
  {
    if total <= offset then offset - total else Overrun(total, offset + size, size)
  }

  lemma {:induction false} OverrunCounts(total: nat, offset: nat, size: nat) returns (n: nat)
    requires 0 < size && offset < total + size
    ensures Overrun(total, offset, size) < size
    ensures offset + n * size == total + Overrun(total, offset, size)
    decreases total - offset
  {
    n := 0;
    if offset < total {
      var m := OverrunCounts(total, offset + size, size);
      n := m + 1;
      assert n * size == m * size + size;
    }
  }

  /** Going round: when there are more codes than fit one run, the last chunk of a full run starts
      over, so the run collects every code once and then the first few again. */
  lemma {:induction false} RotationsCoverAndWrap(codes: seq<string>, offset: nat, size: nat)
    requires 0 < size < |codes| && offset < |codes|
    ensures Overrun(|codes|, offset, size) < size
    ensures codes[..offset] + Flatten(Rotations(codes, offset, size)) == codes + codes[..Overrun(|codes|, offset, size)]
    decreases |codes| - offset
  {
    var n := OverrunCounts(|codes|, offset, size);
    var first, rest := Selected(codes, size, offset), Rotations(codes, offset + size, size);
    assert ([first] + rest)[1..] == rest;
    if offset + size < |codes| {
      RotationsCoverAndWrap(codes, offset + size, size);
      TakeOneRun(codes, size, offset, Flatten(rest));
    } else {
      assert rest == [] && Flatten(rest) == [];
      WrapOneRun(codes, size, offset);
      assert first + [] == first;
    }
  }

  lemma {:induction false} TakeOneRun(codes: seq<string>, size: nat, offset: nat, later: seq<string>)
    requires 0 < size < |codes| && offset + size < |codes|
    ensures codes[..offset] + (Selected(codes, size, offset) + later) == codes[..offset + size] + later
  {
    DivUnique(offset, |codes|, 0, offset);
    var head, tail := codes[..offset], codes[offset..];
    PrefixOfFirst(tail, head, size);
    assert (codes[offset..] + codes[..offset])[..size] == tail[..size];
    TakeMore(codes, offset, size);
    assert head + (tail[..size] + later) == head + tail[..size] + later;
  }

  lemma {:induction false} PrefixOfFirst<T>(a: seq<T>, b: seq<T>, k: nat)
    requires k <= |a|
    ensures (a + b)[..k] == a[..k]
  {
  }

  lemma {:induction false} WrapOneRun(codes: seq<string>, size: nat, offset: nat)
    requires 0 < size < |codes| && offset < |codes| <= offset + size
    ensures codes[..offset] + Selected(codes, size, offset) == codes + codes[..offset + size - |codes|]
  {
    DivUnique(offset, |codes|, 0, offset);
    var head, tail := codes[..offset], codes[offset..];
    Wrap(head, tail, offset + size - |codes|);
    assert head + tail == codes;
  }

  /** So a full rotation run collects every code exactly once, in order, if and only if all codes
      fit one run or the run size divides their number. */
  lemma RotationIsDisjointExactly(codes: seq<string>, size: nat)
    requires 0 < size && codes != []
    ensures Flatten(Rotations(codes, 0, size)) == codes <==> |codes| <= size || |codes| % size == 0
  {
    if |codes| <= size {
      assert Rotations(codes, size, size) == [];
      assert Rotations(codes, 0, size)[1..] == [];
      assert codes + [] == codes;
    } else {
      RotationsCoverAndWrap(codes, 0, size);
      var n := OverrunCounts(|codes|, 0, size);
      var extra := Overrun(|codes|, 0, size);
      assert codes[..0] + Flatten(Rotations(codes, 0, size)) == Flatten(Rotations(codes, 0, size));
      if extra == 0 {
        DivUnique(|codes|, size, n, 0);
      } else {
        assert |Flatten(Rotations(codes, 0, size))| == |codes| + extra;
        assert n != 0;
        assert |codes| == (n - 1) * size + (size - extra);
        DivUnique(|codes|, size, n - 1, size - extra);
      }
    }
  }
}
