/** Splitting a batch until the unsupported codes are alone. */
module QuoteBisection {

  /** Asking a host that answers all or nothing. No answer and an empty one look the same. A batch
      without an answer is split in the middle; a single code without an answer has no row. */
  function Resilient<P, R>(host: seq<P> -> seq<R>, pairs: seq<P>): seq<R> {
    if pairs == [] then []
    else
      var raw := host(pairs);
      if raw != [] then raw
      else if |pairs| == 1 then []
      else
        var mid := |pairs| / 2;
        Resilient(host, pairs[..mid]) + Resilient(host, pairs[mid..])
  }

  /** How often the host is asked. */
  function Calls<P, R>(host: seq<P> -> seq<R>, pairs: seq<P>): nat {
    if pairs == [] then 0
    else if host(pairs) != [] || |pairs| == 1 then 1
    else
      var mid := |pairs| / 2;
      1 + Calls(host, pairs[..mid]) + Calls(host, pairs[mid..])
  }

  /** The rows of the supported codes, in request order. */
  function Answered<P, R>(pairs: seq<P>, supported: P -> bool, quote: P -> R): seq<R> {
    if pairs == [] then []
    else (if supported(pairs[0]) then [quote(pairs[0])] else []) + Answered(pairs[1..], supported, quote)
  }

  function Unsupported<P>(pairs: seq<P>, supported: P -> bool): (k: nat)
    ensures k <= |pairs|
  {
    if pairs == [] then 0
    else (if supported(pairs[0]) then 0 else 1) + Unsupported(pairs[1..], supported)
  }

  /** The host answers a batch, one row for each code, exactly when it supports all of its codes. */
  ghost predicate AllOrNothing<P(!new), R>(host: seq<P> -> seq<R>, supported: P -> bool, quote: P -> R) {
    forall batch: seq<P> {:trigger host(batch), Unsupported(batch, supported)} :: batch != [] ==>
      host(batch) == if Unsupported(batch, supported) == 0 then Answered(batch, supported, quote) else []
  }

  lemma {:induction false} AnsweredJoin<P, R>(a: seq<P>, b: seq<P>, supported: P -> bool, quote: P -> R)
    ensures Answered(a + b, supported, quote) == Answered(a, supported, quote) + Answered(b, supported, quote)
    ensures Unsupported(a + b, supported) == Unsupported(a, supported) + Unsupported(b, supported)
  {
    if a == [] {
      assert a + b == b;
    } else {
      assert (a + b)[0] == a[0] && (a + b)[1..] == a[1..] + b;
      AnsweredJoin(a[1..], b, supported, quote);
      var first := if supported(a[0]) then [quote(a[0])] else [];
      assert Answered(a + b, supported, quote) == first + Answered(a[1..] + b, supported, quote);
    }
  }

  lemma {:induction false} AnsweredSize<P, R>(pairs: seq<P>, supported: P -> bool, quote: P -> R)
    ensures |Answered(pairs, supported, quote)| == |pairs| - Unsupported(pairs, supported)
  {
    if pairs != [] { AnsweredSize(pairs[1..], supported, quote); }
  }

  lemma {:induction false} HalvesJoin<P, R>(pairs: seq<P>, mid: nat, supported: P -> bool, quote: P -> R)
    requires mid <= |pairs|
    ensures Answered(pairs, supported, quote) ==
            Answered(pairs[..mid], supported, quote) + Answered(pairs[mid..], supported, quote)
    ensures Unsupported(pairs, supported) == Unsupported(pairs[..mid], supported) + Unsupported(pairs[mid..], supported)
  {
    AnsweredJoin(pairs[..mid], pairs[mid..], supported, quote);
    assert pairs == pairs[..mid] + pairs[mid..];
  }

  /** Bisection is complete: one row for every supported code and nothing else, in request order. */
  lemma {:induction false} BisectionIsComplete<P(!new), R>(host: seq<P> -> seq<R>, pairs: seq<P>,
      supported: P -> bool, quote: P -> R)
    requires AllOrNothing(host, supported, quote)
    ensures Resilient(host, pairs) == Answered(pairs, supported, quote)
    decreases |pairs|
  {
    if pairs != [] {
      AnsweredSize(pairs, supported, quote);
      if host(pairs) == [] && 1 < |pairs| {
        var mid := |pairs| / 2;
        BisectionIsComplete(host, pairs[..mid], supported, quote);
        BisectionIsComplete(host, pairs[mid..], supported, quote);
        HalvesJoin(pairs, mid, supported, quote);
      }
    }
  }

  /** The least h with n <= 2^h. */
  function CeilLog2(n: nat): nat
    requires 1 <= n
  {
    if n == 1 then 0 else 1 + CeilLog2((n + 1) / 2)
  }

  function Pow2(h: nat): nat {
    if h == 0 then 1 else 2 * Pow2(h - 1)
  }

  lemma {:induction false} CeilLog2IsLeast(n: nat, h: nat)
    requires 1 <= n
    ensures n <= Pow2(h) <==> CeilLog2(n) <= h
    decreases h
  {
    if 1 < n && 0 < h { CeilLog2IsLeast((n + 1) / 2, h - 1); }
    if h == 0 && 1 < n { assert CeilLog2(n) == 1 + CeilLog2((n + 1) / 2); }
    if n == 1 && 0 < h { CeilLog2IsLeast(1, h - 1); }
  }

  lemma {:induction false} CeilLog2Grows(m: nat, n: nat)
    requires 1 <= m <= n
    ensures CeilLog2(m) <= CeilLog2(n)
  {
    if 1 < m { CeilLog2Grows((m + 1) / 2, (n + 1) / 2); }
  }

  /** The questions below the first one: h halvings for each of k unsupported codes, twice. */
  function Descents(k: nat, h: nat): nat {
    if k == 0 then 0 else 2 * h + Descents(k - 1, h)
  }

  lemma {:induction false} DescentsProduct(k: nat, h: nat)
    ensures Descents(k, h) == 2 * (k * h)
  {
    if 0 < k { DescentsProduct(k - 1, h); }
  }

  lemma {:induction false} DescentsJoin(k1: nat, k2: nat, h: nat)
    requires 1 <= h
    ensures Descents(k1, h - 1) + Descents(k2, h - 1) + 2 * (k1 + k2) <= Descents(k1 + k2, h)
    decreases k1 + k2
  {
    if 0 < k1 { DescentsJoin(k1 - 1, k2, h); }
    else if 0 < k2 { DescentsJoin(k1, k2 - 1, h); }
  }

  /** At least one answer is worth nothing extra: never more than 2 n - 1 questions. */
  lemma {:induction false} CallsAreLinear<P, R>(host: seq<P> -> seq<R>, pairs: seq<P>)
    requires pairs != []
    ensures Calls(host, pairs) <= 2 * |pairs| - 1
    decreases |pairs|
  {
    if host(pairs) == [] && 1 < |pairs| {
      CallsAreLinear(host, pairs[..|pairs| / 2]);
      CallsAreLinear(host, pairs[|pairs| / 2..]);
    }
  }

  lemma {:induction false} HalfLog(n: nat)
    requires 2 <= n
    ensures CeilLog2(n / 2) < CeilLog2(n) && CeilLog2(n - n / 2) < CeilLog2(n)
  {
    CeilLog2Grows(n / 2, (n + 1) / 2);
  }

  lemma {:induction false} HalvesOfUnanswered<P(!new), R>(host: seq<P> -> seq<R>, pairs: seq<P>, supported: P -> bool,
      quote: P -> R) returns (left: seq<P>, right: seq<P>)
    requires AllOrNothing(host, supported, quote) && host(pairs) == [] && 1 < |pairs|
    ensures left != [] && right != [] && |left| < |pairs| && |right| < |pairs|
    ensures CeilLog2(|left|) < CeilLog2(|pairs|) && CeilLog2(|right|) < CeilLog2(|pairs|)
    ensures Calls(host, pairs) == 1 + Calls(host, left) + Calls(host, right)
    ensures Unsupported(pairs, supported) == Unsupported(left, supported) + Unsupported(right, supported)
    ensures 1 <= Unsupported(pairs, supported)
  {
    left, right := pairs[..|pairs| / 2], pairs[|pairs| / 2..];
    AnsweredSize(pairs, supported, quote);
    HalvesJoin(pairs, |pairs| / 2, supported, quote);
    HalfLog(|pairs|);
  }

  lemma {:induction false} CallsAndDescents<P(!new), R>(host: seq<P> -> seq<R>, pairs: seq<P>, supported: P -> bool,
      quote: P -> R, h: nat)
    requires AllOrNothing(host, supported, quote) && pairs != []
    requires CeilLog2(|pairs|) <= h
    ensures Calls(host, pairs) <= Descents(Unsupported(pairs, supported), h) + 1
    decreases |pairs|
  {
    if host(pairs) == [] && 1 < |pairs| {
      var left, right := HalvesOfUnanswered(host, pairs, supported, quote);
      CallsAndDescents(host, left, supported, quote, h - 1);
      CallsAndDescents(host, right, supported, quote, h - 1);
      DescentsJoin(Unsupported(left, supported), Unsupported(right, supported), h);
    }
  }

  /** With k unsupported codes among n, at most 2 k ceil(log2 n) + 1 questions. */
  lemma {:induction false} CallBound<P(!new),
        R>(host: seq<P> -> seq<R>, pairs: seq<P>, supported: P -> bool, quote: P -> R)
    requires AllOrNothing(host, supported, quote) && pairs != []
    ensures Calls(host, pairs) <= 2 * (Unsupported(pairs, supported) * CeilLog2(|pairs|)) + 1
  {
    CallsAndDescents(host, pairs, supported, quote, CeilLog2(|pairs|));
    DescentsProduct(Unsupported(pairs, supported), CeilLog2(|pairs|));
  }

  /** The bound is met: one unsupported code among 2^h takes exactly 2 h + 1 questions. */
  lemma {:induction false} BoundIsMet<P(!new), R>(host: seq<P> -> seq<R>, pairs: seq<P>, supported: P -> bool,
      quote: P -> R, h: nat)
    requires AllOrNothing(host, supported, quote)
    requires |pairs| == Pow2(h) && Unsupported(pairs, supported) == 1
    ensures Calls(host, pairs) == 2 * h + 1
    decreases h
  {
    AnsweredSize(pairs, supported, quote);
    assert pairs != [];
    if 0 < h {
      var mid := |pairs| / 2;
      var left, right := pairs[..mid], pairs[mid..];
      HalvesJoin(pairs, mid, supported, quote);
      AnsweredSize(left, supported, quote);
      AnsweredSize(right, supported, quote);
      if Unsupported(left, supported) == 1 {
        BoundIsMet(host, left, supported, quote, h - 1);
        assert Calls(host, right) == 1 by { CallBound(host, right, supported, quote); }
      } else {
        BoundIsMet(host, right, supported, quote, h - 1);
        assert Calls(host, left) == 1 by { CallBound(host, left, supported, quote); }
      }
    }
  }
}
