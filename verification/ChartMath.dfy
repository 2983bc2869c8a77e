/** Intraday charts: session slots, session points, running averages and moving averages of prices. */
module ChartMath {
  import opened Options
  import opened Slices
  import opened StableSort
  import opened Strings

  // ----- Slots -----

  function DigitValue(c: char): nat
    requires Digit(c)
  {
    (c - '0') as int
  }

  /** A T, two digits, a colon and two digits at place i. */
  predicate TimeAt(ts: string, i: nat) {
    && i + 5 < |ts|
    && ts[i] == 'T' && Digit(ts[i + 1]) && Digit(ts[i + 2]) && ts[i + 3] == ':' && Digit(ts[i + 4]) && Digit(ts[i + 5])
  }

  function MinutesAt(ts: string, i: nat): nat
    requires TimeAt(ts, i)
  {
    (10 * DigitValue(ts[i + 1]) + DigitValue(ts[i + 2])) * 60 + 10 * DigitValue(ts[i + 4]) + DigitValue(ts[i + 5])
  }

  /** The minutes of the first time of day from place i on. */
  function FirstMinutes(ts: string, i: nat): Option<nat>
    requires i <= |ts|
    decreases |ts| - i
  {
    if i == |ts| then None else if TimeAt(ts, i) then Some(MinutesAt(ts, i)) else FirstMinutes(ts, i + 1)
  }

  /** Whatever else the text holds, it is the first place with a time of day that counts, and there
      is no result exactly when there is no such place. */
  method HmMinutes(ts: string) returns (minutes: Option<nat>)
    ensures minutes.None? <==> forall j: nat :: !TimeAt(ts, j)
    ensures minutes.Some? ==>
      exists k: nat :: TimeAt(ts, k) && minutes.value == MinutesAt(ts, k) && forall j: nat :: j < k ==> !TimeAt(ts, j)
    ensures minutes == FirstMinutes(ts, 0)
  {
    for i := 0 to |ts|
      invariant forall j: nat :: j < i ==> !TimeAt(ts, j)
      invariant FirstMinutes(ts, i) == FirstMinutes(ts, 0)
    {
      if TimeAt(ts, i) {
        return Some(MinutesAt(ts, i));
      }
    }
    minutes := None;
  }

  lemma {:induction false} FirstIsAt(ts: string, i: nat, k: nat)
    requires i <= k && TimeAt(ts, k) && forall j: nat :: i <= j < k ==> !TimeAt(ts, j)
    ensures FirstMinutes(ts, i) == Some(MinutesAt(ts, k))
    decreases k - i
  {
    if i < k { FirstIsAt(ts, i + 1, k); }
  }

  /** A text whose first time of day is h:m means 60 h + m minutes. */
  lemma {:induction false} TimeOfText(before: string, h: nat, m: nat, after: string)
    requires h < 100 && m < 100
    requires forall j: nat :: j < |before| ==> !TimeAt(before + ("T" + Two(h) + ":" + Two(m)) + after, j)
    ensures FirstMinutes(before + ("T" + Two(h) + ":" + Two(m)) + after, 0) == Some(60 * h + m)
  {
    var time, n := "T" + Two(h) + ":" + Two(m), |before|;
    var ts := before + time + after;
    assert forall j :: 0 <= j < 6 ==> ts[n + j] == time[j];
    assert time[0] == 'T' && time[1] == Two(h)[0] && time[2] == Two(h)[1] && time[3] == ':';
    assert time[4] == Two(m)[0] && time[5] == Two(m)[1];
    FirstIsAt(ts, 0, n);
  }

  const AM_START := 570
  const AM_END := 690
  const PM_START := 780
  const PM_END := 900

  function Min(a: int, b: int): int { if a < b then a else b }

  function Max(a: int, b: int): int { if a < b then b else a }

  /** The slot of a minute of the day. */
  function Slot(mins: nat): Option<int> {
    if AM_START <= mins <= AM_END then Some(Min(119, Max(0, mins - AM_START)))
    else if PM_START <= mins <= PM_END then Some(120 + Min(119, Max(0, mins - PM_START)))
    else None
  }

  function SlotOf(ts: string): Option<int> {
    match FirstMinutes(ts, 0)
    case None => None
    case Some(mins) => Slot(mins)
  }

  /** The 242 session minutes fill the slots 0 to 239 in order; only the last two minutes of each
      half share a slot. */
  lemma SlotsFollowTheSession(a: nat, b: nat)
    ensures Slot(a).Some? <==> 570 <= a <= 690 || 780 <= a <= 900
    ensures Slot(a).Some? ==> 0 <= Slot(a).value <= 239
    ensures Slot(a).Some? && Slot(b).Some? && a < b ==>
              && Slot(a).value <= Slot(b).value
              && (Slot(a).value == Slot(b).value <==>
                (a == 689 && b == 690) || (a == 899 && b == 900))
  {
  }

  /** Every slot is the slot of some minute. */
  lemma EverySlotIsReached(s: int)
    requires 0 <= s <= 239
    ensures exists a: nat :: Slot(a) == Some(s)
  {
    var a := if s < 120 then AM_START + s else PM_START + s - 120;
    assert Slot(a) == Some(s);
  }

  // ----- Session points -----

  /** A number that may be missing, not a number, or infinite. */
  datatype Num = Finite(x: real) | NotFinite

  datatype Bar = Bar(ts: string, close: Num, volume: Num, amount: Num)

  datatype Point = Point(slot: int, bar: Bar, close: real, volume: real, amount: real)

  function SanitizeQty(v: Num): (q: real)
    ensures 0.0 <= q
  {
    if v.Finite? && 0.000001 < v.x then v.x else 0.0
  }

  /** The point of a bar, if it is in the session and has a positive price. */
  function PointOf(bar: Bar): Option<Point> {
    var slot := SlotOf(bar.ts);
    if slot.None? || bar.close.NotFinite? || bar.close.x <= 0.0 then None
    else Some(Point(slot.value, bar, bar.close.x, SanitizeQty(bar.volume), SanitizeQty(bar.amount)))
  }

  /** The last of the first n bars of a slot. */
  function LastPoint(bars: seq<Bar>, slot: int, n: nat): (p: Option<Point>)
    requires n <= |bars|
    ensures p.Some? ==> p.value.slot == slot && 0 <= slot <= 239
  {
    if n == 0 then None
    else if PointOf(bars[n - 1]).Some? && PointOf(bars[n - 1]).value.slot == slot then PointOf(bars[n - 1])
    else LastPoint(bars, slot, n - 1)
  }

  /** A quantity of a point: the bar's, unless it is missing, infinite, negative or noise. */
  predicate QtyOf(v: Num, q: real) {
    if v.Finite? && 0.000001 < v.x then q == v.x else q == 0.0
  }

  /** The bar is in the session, in this slot, and has a price. */
  predicate InSlot(bar: Bar, slot: int) {
    SlotOf(bar.ts) == Some(slot) && bar.close.Finite? && 0.0 < bar.close.x
  }

  /** The point says what its bar says. */
  predicate PointSays(p: Point, bar: Bar) {
    && InSlot(bar, p.slot) && p.bar == bar && bar.close == Finite(p.close)
    && QtyOf(bar.volume, p.volume) && QtyOf(bar.amount, p.amount)
  }

  lemma {:induction false} LastPointSays(bars: seq<Bar>, slot: int, n: nat)
    requires n <= |bars|
    ensures match LastPoint(bars, slot, n)
            case None => forall k :: 0 <= k < n ==> !InSlot(bars[k], slot)
            case Some(p) => exists k :: 0 <= k < n && PointSays(p, bars[k])
                              && forall j :: k < j < n ==> !InSlot(bars[j], slot)
  {
    if 0 < n {
      LastPointSays(bars, slot, n - 1);
      var p := PointOf(bars[n - 1]);
      if p.Some? && p.value.slot == slot {
        assert PointSays(p.value, bars[n - 1]);
      } else {
        assert !InSlot(bars[n - 1], slot);
      }
    }
  }

  /** The points say what the last bar of each slot says, and no bar with a price is without one. */
  ghost predicate PointsSay(points: seq<Point>, bars: seq<Bar>) {
    && (forall p :: p in points ==>
         exists k :: 0 <= k < |bars| && PointSays(p, bars[k])
           && forall j :: k < j < |bars| ==> !InSlot(bars[j], p.slot))
    && forall k, slot :: 0 <= k < |bars| && InSlot(bars[k], slot) ==> exists p :: p in points && p.slot == slot
  }

  lemma {:induction false} SessionPointsSay(points: seq<Point>, bars: seq<Bar>)
    requires forall p :: p in points <==> LastPoint(bars, p.slot, |bars|) == Some(p)
    ensures PointsSay(points, bars)
  {
    forall p | p in points
      ensures exists k :: 0 <= k < |bars| && PointSays(p, bars[k])
                && forall j :: k < j < |bars| ==> !InSlot(bars[j], p.slot) {
      LastPointSays(bars, p.slot, |bars|);
    }
    forall k, slot | 0 <= k < |bars| && InSlot(bars[k], slot) ensures exists p :: p in points && p.slot == slot {
      LastPointSays(bars, slot, |bars|);
      assert LastPoint(bars, slot, |bars|).value in points;
    }
  }

  function BySlot(): Point -> Key { (p: Point) => Number(p.slot as real) }

  ghost predicate DistinctSlots(points: seq<Point>) {
    forall i, j :: 0 <= i < j < |points| ==> points[i].slot != points[j].slot
  }

  /** The entry of a slot in a map that keeps its entries in the order they came in. */
  method PutPoint(entries: seq<Point>, p: Point) returns (after: seq<Point>)
    requires DistinctSlots(entries)
    ensures DistinctSlots(after) && p in after
    ensures forall q :: q in after <==> q == p || (q in entries && q.slot != p.slot)
  {
    for i := 0 to |entries|
      invariant forall j :: 0 <= j < i ==> entries[j].slot != p.slot
    {
      if entries[i].slot == p.slot {
        after := entries[i := p];
        assert after[i] == p;
        forall q ensures q in after <==> q == p || (q in entries && q.slot != p.slot) {
          if q in entries && q.slot != p.slot {
            var j :| 0 <= j < |entries| && entries[j] == q;
            assert after[j] == q;
          }
        }
        return;
      }
    }
    after := entries + [p];
    assert after[|entries|] == p;
  }

  /** One point for each slot, the last bar of the slot, in strictly increasing order of slots. */
  ghost predicate SessionPoints(points: seq<Point>, bars: seq<Bar>) {
    && (forall i, j :: 0 <= i < j < |points| ==> points[i].slot < points[j].slot)
    && (forall p :: p in points <==> LastPoint(bars, p.slot, |bars|) == Some(p))
    && forall p :: p in points ==> 0 <= p.slot <= 239 && 0.0 < p.close && 0.0 <= p.volume && 0.0 <= p.amount
  }

  method ToSessionPoints(bars: seq<Bar>) returns (points: seq<Point>)
    ensures SessionPoints(points, bars) && PointsSay(points, bars)
  {
    var entries: seq<Point> := [];
    for n := 0 to |bars|
      invariant DistinctSlots(entries)
      invariant forall p :: p in entries <==> LastPoint(bars, p.slot, n) == Some(p)
    {
      var p := PointOf(bars[n]);
      if p.Some? {
        entries := PutPoint(entries, p.value);
      }
    }
    points := Sort(entries, BySlot(), false);
    SortedPoints(entries);
    SessionPointsSay(points, bars);
    forall p | p in points ensures 0.0 < p.close && 0.0 <= p.volume && 0.0 <= p.amount {
      LastPointIsSound(bars, p.slot, |bars|);
    }
  }

  lemma {:induction false} LastPointIsSound(bars: seq<Bar>, slot: int, n: nat)
    requires n <= |bars| && LastPoint(bars, slot, n).Some?
    ensures var p := LastPoint(bars, slot, n).value; 0.0 < p.close && 0.0 <= p.volume && 0.0 <= p.amount
  {
    if !(PointOf(bars[n - 1]).Some? && PointOf(bars[n - 1]).value.slot == slot) { LastPointIsSound(bars, slot, n - 1); }
  }

  /** Sorting distinct slots makes them strictly increase. */
  lemma {:induction false} SortedPoints(entries: seq<Point>)
    requires DistinctSlots(entries)
    ensures var points := Sort(entries, BySlot(), false);
            && (forall p :: p in points <==> p in entries)
            && forall i, j :: 0 <= i < j < |points| ==> points[i].slot < points[j].slot
  {
    var points := Sort(entries, BySlot(), false);
    SortPermutes(entries, BySlot(), false);
    SortSorts(entries, BySlot(), false);
    ReorderedDiffer(entries, points);
    forall p ensures p in points <==> p in entries {
      assert p in points <==> p in multiset(points);
      assert p in entries <==> p in multiset(entries);
    }
    forall i, j | 0 <= i < j < |points| ensures points[i].slot < points[j].slot {
      assert !Precedes(BySlot()(points[j]), BySlot()(points[i]), false);
      assert points[i] in entries && points[j] in entries;
    }
  }

  // ----- The running average -----

  predicate Positive(p: Point) { 0.0 < p.amount && 0.0 < p.volume && 0.0 < p.close }

  /** Amount over volume looks like the price. */
  predicate PriceLike(p: Point)
    requires Positive(p)
  {
    p.close * 0.4 <= p.amount / p.volume <= p.close * 2.5
  }

  /** The places of the first positive points, at most twelve of them. */
  function Samples(points: seq<Point>, n: nat): (samples: seq<nat>)
    requires n <= |points|
    ensures |samples| <= 12 && forall i :: 0 <= i < |samples| ==> samples[i] < n && Positive(points[samples[i]])
  {
    if n == 0 then []
    else
      var before := Samples(points, n - 1);
      if |before| < 12 && Positive(points[n - 1]) then before + [n - 1] else before
  }

  lemma {:induction false} SamplesAscend(points: seq<Point>, n: nat, i: nat, j: nat)
    requires n <= |points| && i < j < |Samples(points, n)|
    ensures Samples(points, n)[i] < Samples(points, n)[j]
  {
    if j < |Samples(points, n - 1)| { SamplesAscend(points, n - 1, i, j); }
  }

  /** The samples are the first positive points: in order, and every positive point is one unless
      twelve come before it. */
  lemma {:induction false} SamplesAreFirst(points: seq<Point>, n: nat, k: nat)
    requires k < n <= |points| && 0.0 < points[k].amount && 0.0 < points[k].volume && 0.0 < points[k].close
    ensures var samples := Samples(points, n);
            k in samples || (|samples| == 12 && forall i :: 0 <= i < 12 ==> samples[i] < k)
  {
    var before, samples := Samples(points, n - 1), Samples(points, n);
    if k < n - 1 {
      SamplesAreFirst(points, n - 1, k);
      if k in before {
        var i :| 0 <= i < |before| && before[i] == k;
        assert samples[i] == k;
      }
    } else if |before| < 12 {
      assert samples[|before|] == k;
    }
  }

  /** Price-like: between two fifths and five halves of what the volume costs at the close. */
  lemma {:induction false} PriceLikeExactly(p: Point)
    requires Positive(p)
    ensures PriceLike(p) <==> 0.4 * (p.close * p.volume) <= p.amount <= 2.5 * (p.close * p.volume)
  {
    var px := p.amount / p.volume;
    QuotientTimes(p.amount, p.volume);
    ScaledExactly(p.close * 0.4, px, p.volume);
    ScaledExactly(px, p.close * 2.5, p.volume);
    Regroup(p.close, 0.4, p.volume);
    Regroup(p.close, 2.5, p.volume);
  }

  lemma {:induction false} ScaledExactly(a: real, b: real, w: real)
    requires 0.0 < w
    ensures a <= b <==> a * w <= b * w
  {
    if a <= b { Scale(a, b, w); } else { ScaleStrictly(b, a, w); }
  }

  lemma {:induction false} Regroup(a: real, b: real, c: real)
    ensures a * b * c == b * (a * c)
  {
  }

  function CountLike(points: seq<Point>, samples: seq<nat>): nat
    requires forall i :: 0 <= i < |samples| ==> samples[i] < |points| && Positive(points[samples[i]])
  {
    if samples == [] then 0
    else CountLike(points, samples[..|samples| - 1]) + if PriceLike(points[samples[|samples| - 1]]) then 1 else 0
  }

  /** At least six in ten of the first twelve positive points have a price-like ratio. */
  predicate LooksValid(points: seq<Point>) {
    var samples := Samples(points, |points|);
    samples != [] && 6 * |samples| <= 10 * CountLike(points, samples)
  }

  lemma {:induction false} SampleStep(points: seq<Point>, n: nat)
    requires n < |points| && |Samples(points, n)| < 12
    ensures |Samples(points, n + 1)| == |Samples(points, n)| + if Positive(points[n]) then 1 else 0
    ensures CountLike(points, Samples(points, n + 1)) ==
            CountLike(points, Samples(points, n)) + if Positive(points[n]) && PriceLike(points[n]) then 1 else 0
  {
    var before := Samples(points, n);
    assert (before + [n])[..|before|] == before;
  }

  /** The first twelve positive points, and how many of them are price-like. */
  method CountSamples(points: seq<Point>) returns (samples: nat, ok: nat)
    ensures samples == |Samples(points, |points|)| && ok == CountLike(points, Samples(points, |points|))
  {
    samples, ok := 0, 0;
    var n := 0;
    while n < |points| && samples < 12
      invariant n <= |points|
      invariant samples == |Samples(points, n)| && ok == CountLike(points, Samples(points, n))
    {
      SampleStep(points, n);
      if Positive(points[n]) {
        samples := samples + 1;
        if PriceLike(points[n]) {
          ok := ok + 1;
        }
      }
      n := n + 1;
    }
    if samples == 12 { FullSamplesStay(points, n, |points|); }
  }

  method AmountVwapLooksValid(points: seq<Point>) returns (valid: bool)
    ensures valid == LooksValid(points)
  {
    var samples, ok := CountSamples(points);
    valid := 0 < samples && 0.6 <= ok as real / samples as real;
    if 0 < samples { Ratio(ok, samples); }
  }

  lemma {:induction false} FullSamplesStay(points: seq<Point>, m: nat, n: nat)
    requires m <= n <= |points| && |Samples(points, m)| == 12
    ensures Samples(points, n) == Samples(points, m)
  {
    if m < n { FullSamplesStay(points, m, n - 1); }
  }

  lemma {:induction false} Ratio(ok: nat, samples: nat)
    requires 0 < samples
    ensures 0.6 <= ok as real / samples as real <==> 6 * samples <= 10 * ok
  {
    Fraction(ok as real, samples as real);
    assert 6 * samples <= 10 * ok <==> 6.0 * samples as real <= 10.0 * ok as real;
  }

  lemma {:induction false} Fraction(part: real, whole: real)
    requires 0.0 < whole
    ensures 0.6 <= part / whole <==> 6.0 * whole <= 10.0 * part
  {
    var q := part / whole;
    assert q * whole == part;
    if 0.6 <= q { Scale(0.6, q, whole); } else { ScaleStrictly(q, 0.6, whole); }
  }

  lemma {:induction false} ScaleStrictly(a: real, b: real, w: real)
    requires a < b && 0.0 < w
    ensures a * w < b * w
  {
  }

  /** What is averaged: amounts over volumes, closes weighted by volume, or plain closes. */
  datatype Mode = ByAmount | ByVolume | Plain

  function Weight(p: Point, mode: Mode): (w: real)
    ensures 0.0 <= w
  {
    match mode
    case ByAmount => if 0.0 < p.amount && 0.0 < p.volume then p.volume else 0.0
    case ByVolume => if 0.0 < p.volume then p.volume else 0.0
    case Plain => 1.0
  }

  function Price(p: Point, mode: Mode): real
    requires 0.0 < Weight(p, mode)
  {
    if mode == ByAmount then p.amount / p.volume else p.close
  }

  function Worth(p: Point, mode: Mode): real {
    match mode
    case ByAmount => if 0.0 < p.amount && 0.0 < p.volume then p.amount else 0.0
    case ByVolume => if 0.0 < p.volume then p.close * p.volume else 0.0
    case Plain => p.close
  }

  /** The sum from place lo to before place hi. */
  function Sum(values: seq<real>, lo: nat, hi: nat): real
    requires lo <= hi <= |values|
  {
    if lo == hi then 0.0 else Sum(values, lo, hi - 1) + values[hi - 1]
  }

  function Weights(points: seq<Point>, mode: Mode): (ws: seq<real>)
    ensures |ws| == |points| && forall i :: 0 <= i < |points| ==> ws[i] == Weight(points[i], mode)
  {
    seq(|points|, i requires 0 <= i < |points| => Weight(points[i], mode))
  }

  function Worths(points: seq<Point>, mode: Mode): (ts: seq<real>)
    ensures |ts| == |points| && forall i :: 0 <= i < |points| ==> ts[i] == Worth(points[i], mode)
  {
    seq(|points|, i requires 0 <= i < |points| => Worth(points[i], mode))
  }

  function ModeAt(points: seq<Point>, useAmount: bool, k: nat): Mode
    requires k <= |points|
  {
    if useAmount && 0.0 < Sum(Weights(points, ByAmount), 0, k) then ByAmount
    else if 0.0 < Sum(Weights(points, ByVolume), 0, k) then ByVolume
    else Plain
  }

  lemma {:induction false} SumOfOnes(ws: seq<real>, k: nat)
    requires k <= |ws| && forall i :: 0 <= i < k ==> ws[i] == 1.0
    ensures Sum(ws, 0, k) == k as real
  {
    if 0 < k { SumOfOnes(ws, k - 1); }
  }

  lemma {:induction false} SomeWeight(ws: seq<real>, k: nat)
    requires k <= |ws| && forall i :: 0 <= i < k ==> 0.0 <= ws[i]
    ensures 0.0 <= Sum(ws, 0, k)
    ensures 0.0 < Sum(ws, 0, k) <==> exists j :: 0 <= j < k && 0.0 < ws[j]
  {
    if 0 < k { SomeWeight(ws, k - 1); }
  }

  lemma {:induction false} ModeHasWeight(points: seq<Point>, useAmount: bool, k: nat)
    requires 0 < k <= |points|
    ensures 0.0 < Sum(Weights(points, ModeAt(points, useAmount, k)), 0, k)
    ensures Sum(Weights(points, Plain), 0, k) == k as real
  {
    SumOfOnes(Weights(points, Plain), k);
  }

  /** The average of the first k points. */
  function Average(points: seq<Point>, useAmount: bool, k: nat): real
    requires 0 < k <= |points|
  {
    ModeHasWeight(points, useAmount, k);
    var mode := ModeAt(points, useAmount, k);
    Sum(Worths(points, mode), 0, k) / Sum(Weights(points, mode), 0, k)
  }

  /** The sums a running average needs. */
  datatype Sums = Sums(amt: real, volAmt: real, cv: real, volCv: real, c: real)

  ghost predicate SumsAre(s: Sums, points: seq<Point>, useAmount: bool, n: nat)
    requires n <= |points|
  {
    && (useAmount ==> s.amt == Sum(Worths(points, ByAmount), 0, n) && s.volAmt == Sum(Weights(points, ByAmount), 0, n))
    && s.cv == Sum(Worths(points, ByVolume), 0, n) && s.volCv == Sum(Weights(points, ByVolume), 0, n)
    && s.c == Sum(Worths(points, Plain), 0, n)
  }

  method AddPoint(s: Sums, ghost points: seq<Point>, p: Point, useAmount: bool, ghost n: nat) returns (t: Sums)
    requires n < |points| && points[n] == p && SumsAre(s, points, useAmount, n)
    ensures SumsAre(t, points, useAmount, n + 1)
  {
    t := s.(c := s.c + p.close);
    if 0.0 < p.volume {
      t := t.(cv := t.cv + p.close * p.volume, volCv := t.volCv + p.volume);
    }
    if useAmount && 0.0 < p.amount && 0.0 < p.volume {
      t := t.(amt := t.amt + p.amount, volAmt := t.volAmt + p.volume);
    }
  }

  method CurrentAverage(s: Sums, ghost points: seq<Point>, useAmount: bool, n: nat) returns (avg: real)
    requires 0 < n <= |points| && SumsAre(s, points, useAmount, n)
    ensures avg == Average(points, useAmount, n)
  {
    ModeHasWeight(points, useAmount, n);
    if useAmount && 0.0 < s.volAmt {
      avg := s.amt / s.volAmt;
    } else if 0.0 < s.volCv {
      avg := s.cv / s.volCv;
    } else {
      avg := s.c / n as real;
    }
  }

  /** A total over the first k points. */
  ghost function Total(points: seq<Point>, f: Point -> real, k: nat): real
    requires k <= |points|
  {
    if k == 0 then 0.0 else Total(points, f, k - 1) + f(points[k - 1])
  }

  lemma {:induction false} SumIsTotal(xs: seq<real>, points: seq<Point>, f: Point -> real, k: nat)
    requires k <= |points| && k <= |xs| && forall i :: 0 <= i < k ==> xs[i] == f(points[i])
    ensures Sum(xs, 0, k) == Total(points, f, k)
  {
    if 0 < k { SumIsTotal(xs, points, f, k - 1); }
  }

  /** The amounts over the volumes of the points that have both. */
  ghost predicate IsAmountRatio(avg: real, points: seq<Point>, k: nat)
    requires k <= |points|
  {
    avg * Total(points, (p: Point) => if 0.0 < p.amount && 0.0 < p.volume then p.volume else 0.0, k) ==
      Total(points, (p: Point) => if 0.0 < p.amount && 0.0 < p.volume then p.amount else 0.0, k)
  }

  /** The closes weighted by volume. */
  ghost predicate IsWeightedClose(avg: real, points: seq<Point>, k: nat)
    requires k <= |points|
  {
    avg * Total(points, (p: Point) => if 0.0 < p.volume then p.volume else 0.0, k) ==
      Total(points, (p: Point) => if 0.0 < p.volume then p.close * p.volume else 0.0, k)
  }

  /** The plain mean of the closes. */
  ghost predicate IsMeanClose(avg: real, points: seq<Point>, k: nat)
    requires k <= |points|
  {
    avg * k as real == Total(points, (p: Point) => p.close, k)
  }

  /** An average of the first k points in terms of the points: by amounts when they are in use and
      some are there, else by volumes when some are there, else plain. */
  ghost predicate IsAverage(avg: real, points: seq<Point>, useAmount: bool, k: nat)
    requires k <= |points|
  {
    if useAmount && exists j :: 0 <= j < k && 0.0 < points[j].amount && 0.0 < points[j].volume then
      IsAmountRatio(avg, points, k)
    else if exists j :: 0 <= j < k && 0.0 < points[j].volume then IsWeightedClose(avg, points, k)
    else IsMeanClose(avg, points, k)
  }

  lemma {:induction false} QuotientTimes(a: real, b: real)
    requires 0.0 < b
    ensures a / b * b == a
  {
  }

  lemma {:induction false} AmountAverage(points: seq<Point>, useAmount: bool, k: nat)
    requires 0 < k <= |points| && ModeAt(points, useAmount, k) == ByAmount
    ensures IsAmountRatio(Average(points, useAmount, k), points, k)
  {
    var ws, ts := Weights(points, ByAmount), Worths(points, ByAmount);
    ModeHasWeight(points, useAmount, k);
    SumIsTotal(ws, points, (p: Point) => if 0.0 < p.amount && 0.0 < p.volume then p.volume else 0.0, k);
    SumIsTotal(ts, points, (p: Point) => if 0.0 < p.amount && 0.0 < p.volume then p.amount else 0.0, k);
    QuotientTimes(Sum(ts, 0, k), Sum(ws, 0, k));
  }

  lemma {:induction false} VolumeAverage(points: seq<Point>, useAmount: bool, k: nat)
    requires 0 < k <= |points| && ModeAt(points, useAmount, k) == ByVolume
    ensures IsWeightedClose(Average(points, useAmount, k), points, k)
  {
    var ws, ts := Weights(points, ByVolume), Worths(points, ByVolume);
    ModeHasWeight(points, useAmount, k);
    SumIsTotal(ws, points, (p: Point) => if 0.0 < p.volume then p.volume else 0.0, k);
    SumIsTotal(ts, points, (p: Point) => if 0.0 < p.volume then p.close * p.volume else 0.0, k);
    QuotientTimes(Sum(ts, 0, k), Sum(ws, 0, k));
  }

  lemma {:induction false} PlainAverage(points: seq<Point>, useAmount: bool, k: nat)
    requires 0 < k <= |points| && ModeAt(points, useAmount, k) == Plain
    ensures IsMeanClose(Average(points, useAmount, k), points, k)
  {
    var ts := Worths(points, Plain);
    ModeHasWeight(points, useAmount, k);
    SumIsTotal(ts, points, (p: Point) => p.close, k);
    QuotientTimes(Sum(ts, 0, k), k as real);
  }

  lemma {:induction false} AverageIs(points: seq<Point>, useAmount: bool, k: nat)
    requires 0 < k <= |points|
    ensures IsAverage(Average(points, useAmount, k), points, useAmount, k)
  {
    ModeIsByWhatIsThere(points, useAmount, k);
    if ModeAt(points, useAmount, k) == ByAmount {
      AmountAverage(points, useAmount, k);
    } else if ModeAt(points, useAmount, k) == ByVolume {
      VolumeAverage(points, useAmount, k);
    } else {
      PlainAverage(points, useAmount, k);
    }
  }

  /** The running average, from running sums. */
  method CumulativeAvg(points: seq<Point>) returns (out: seq<real>)
    ensures |out| == |points|
    ensures forall k :: 0 <= k < |points| ==> out[k] == Average(points, LooksValid(points), k + 1)
    ensures forall k :: 0 <= k < |points| ==> IsAverage(out[k], points, LooksValid(points), k + 1)
  {
    var useAmount := AmountVwapLooksValid(points);
    var sums := Sums(0.0, 0.0, 0.0, 0.0, 0.0);
    out := [];
    for n := 0 to |points|
      invariant |out| == n
      invariant SumsAre(sums, points, useAmount, n)
      invariant forall k :: 0 <= k < n ==> out[k] == Average(points, useAmount, k + 1)
    {
      sums := AddPoint(sums, points, points[n], useAmount, n);
      var avg := CurrentAverage(sums, points, useAmount, n + 1);
      out := out + [avg];
    }
    forall k | 0 <= k < |points| ensures IsAverage(out[k], points, LooksValid(points), k + 1) {
      AverageIs(points, useAmount, k + 1);
    }
  }

  lemma {:induction false} WorthIsPriced(p: Point, mode: Mode, lo: real, hi: real)
    requires 0.0 < Weight(p, mode) ==> lo <= Price(p, mode) <= hi
    ensures lo * Weight(p, mode) <= Worth(p, mode) <= hi * Weight(p, mode)
  {
    if 0.0 < Weight(p, mode) {
      var price, w := Price(p, mode), Weight(p, mode);
      assert Worth(p, mode) == price * w;
      Scale(lo, price, w);
      Scale(price, hi, w);
    }
  }

  lemma {:induction false} Scale(a: real, b: real, w: real)
    requires a <= b && 0.0 <= w
    ensures a * w <= b * w
  {
  }

  lemma {:induction false} ScaleBack(a: real, b: real, w: real)
    requires 0.0 < w && a * w <= b * w
    ensures a <= b
  {
  }

  lemma {:induction false} Distribute(a: real, x: real, y: real)
    ensures a * (x + y) == a * x + a * y
  {
  }

  function Scaled(ws: seq<real>, c: real): (xs: seq<real>)
    ensures |xs| == |ws| && forall i :: 0 <= i < |ws| ==> xs[i] == c * ws[i]
  {
    seq(|ws|, i requires 0 <= i < |ws| => c * ws[i])
  }

  lemma {:induction false} SumScaled(ws: seq<real>, c: real, k: nat)
    requires k <= |ws|
    ensures Sum(Scaled(ws, c), 0, k) == c * Sum(ws, 0, k)
  {
    if 0 < k {
      SumScaled(ws, c, k - 1);
      Distribute(c, Sum(ws, 0, k - 1), ws[k - 1]);
    }
  }

  lemma {:induction false} SumGrows(xs: seq<real>, ys: seq<real>, k: nat)
    requires k <= |xs| && k <= |ys| && forall j :: 0 <= j < k ==> xs[j] <= ys[j]
    ensures Sum(xs, 0, k) <= Sum(ys, 0, k)
  {
    if 0 < k { SumGrows(xs, ys, k - 1); }
  }

  lemma {:induction false} SumsAreBetween(points: seq<Point>, mode: Mode, k: nat, lo: real, hi: real)
    requires k <= |points|
    requires forall j :: 0 <= j < k && 0.0 < Weight(points[j], mode) ==> lo <= Price(points[j], mode) <= hi
    ensures var ws, s := Weights(points, mode), Sum(Worths(points, mode), 0, k);
            Sum(Scaled(ws, lo), 0, k) <= s <= Sum(Scaled(ws, hi), 0, k)
  {
    var low, worth, high := Scaled(Weights(points, mode), lo), Worths(points, mode), Scaled(Weights(points, mode), hi);
    forall j | 0 <= j < k ensures low[j] <= worth[j] <= high[j] {
      WorthIsPriced(points[j], mode, lo, hi);
    }
    SumGrows(low, worth, k);
    SumGrows(worth, high, k);
  }

  lemma {:induction false} Quotient(lo: real, hi: real, s: real, w: real)
    requires 0.0 < w && lo * w <= s <= hi * w
    ensures lo <= s / w <= hi
  {
    var q := s / w;
    assert q * w == s;
    ScaleBack(lo, q, w);
    ScaleBack(q, hi, w);
  }

  lemma {:induction false} QuotientOfSums(ws: seq<real>, ts: seq<real>, lo: real, hi: real, k: nat)
    requires k <= |ws| == |ts| && 0.0 < Sum(ws, 0, k)
    requires Sum(Scaled(ws, lo), 0, k) <= Sum(ts, 0, k) <= Sum(Scaled(ws, hi), 0, k)
    ensures lo <= Sum(ts, 0, k) / Sum(ws, 0, k) <= hi
  {
    SumScaled(ws, lo, k);
    SumScaled(ws, hi, k);
    Quotient(lo, hi, Sum(ts, 0, k), Sum(ws, 0, k));
  }

  /** Every average lies between the least and the greatest price that contributes to it: the
      ratios of amount to volume when amounts are used and some are there, else the closes of the
      points with volume if there are any, else all closes. */
  lemma AverageIsBetween(points: seq<Point>, useAmount: bool, k: nat, lo: real, hi: real)
    requires 0 < k <= |points|
    requires var mode := ModeAt(points, useAmount, k);
             forall j :: 0 <= j < k && 0.0 < Weight(points[j], mode) ==> lo <= Price(points[j], mode) <= hi
    ensures lo <= Average(points, useAmount, k) <= hi
  {
    var mode := ModeAt(points, useAmount, k);
    ModeHasWeight(points, useAmount, k);
    SumsAreBetween(points, mode, k, lo, hi);
    QuotientOfSums(Weights(points, mode), Worths(points, mode), lo, hi, k);
  }

  /** Which prices contribute. */
  lemma ModeIsByWhatIsThere(points: seq<Point>, useAmount: bool, k: nat)
    requires k <= |points|
    ensures ModeAt(points, useAmount, k) ==
            if useAmount && exists j :: 0 <= j < k && 0.0 < points[j].amount && 0.0 < points[j].volume then ByAmount
            else if exists j :: 0 <= j < k && 0.0 < points[j].volume then ByVolume
            else Plain
  {
    var byAmount, byVolume := Weights(points, ByAmount), Weights(points, ByVolume);
    SomeWeight(byAmount, k);
    SomeWeight(byVolume, k);
    forall j | 0 <= j < k ensures (0.0 < byAmount[j] <==> 0.0 < points[j].amount && 0.0 < points[j].volume)
                               && (0.0 < byVolume[j] <==> 0.0 < points[j].volume) {
    }
  }

  // ----- The moving average -----

  lemma {:induction false} SumTail(values: seq<real>, lo: nat, hi: nat)
    requires lo < hi <= |values|
    ensures Sum(values, lo, hi) == values[lo] + Sum(values, lo + 1, hi)
  {
    if lo + 1 < hi { SumTail(values, lo, hi - 1); }
  }

  /** Null, the result of a division by zero, or a mean. */
  datatype Cell = NoMean | NaN | Mean(x: real)

  /** The running sum gives the plain mean of every full window, and null before the first one. */
  method Sma(values: seq<real>, window: nat) returns (out: seq<Cell>)
    ensures |out| == |values|
    ensures forall i :: 0 <= i < |values| ==>
              out[i] == if window == 0 then NaN
                        else if i + 1 < window then NoMean
                        else Mean(Sum(values, i + 1 - window, i + 1) / window as real)
  {
    out := [];
    var sum := 0.0;
    for i := 0 to |values|
      invariant |out| == i
      invariant sum == Sum(values, if window <= i then i - window else 0, i)
      invariant forall j :: 0 <= j < i ==>
                  out[j] == if window == 0 then NaN
                            else if j + 1 < window then NoMean
                            else Mean(Sum(values, j + 1 - window, j + 1) / window as real)
    {
      sum := sum + values[i];
      if window <= i {
        SumTail(values, i - window, i + 1);
        sum := sum - values[i - window];
      }
      if window <= i + 1 {
        out := out + [if window == 0 then NaN else Mean(sum / window as real)];
      } else {
        out := out + [NoMean];
      }
    }
  }
}
