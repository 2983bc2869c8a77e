/** Slices of sequences: cutting a sequence into consecutive pieces, counting the pieces, and counting elements. */
module Slices {

  function Upto(a: nat, b: nat): nat { if a < b then a else b }

  /** Consecutive pieces of at most `size` units from `lo` on. */
  function Pieces<T>(units: seq<T>, lo: nat, size: nat): seq<seq<T>>
    requires 0 < size
    decreases |units| - lo
  {
    if |units| <= lo then []
    else [units[lo..Upto(lo + size, |units|)]] + Pieces(units, lo + size, size)
  }

  function Flatten<T>(pieces: seq<seq<T>>): seq<T> {
    if pieces == [] then [] else pieces[0] + Flatten(pieces[1..])
  }

  lemma {:induction false} SliceSplit<T>(s: seq<T>, a: nat, b: nat)
    requires a <= b <= |s|
    ensures s[a..] == s[a..b] + s[b..]
  {
  }

  lemma {:induction false} MiddleOf<T>(s: seq<T>, i: nat, j: nat, middle: seq<T>)
    requires i <= j <= |s| && s[i..] == middle + s[j..]
    ensures middle == s[i..j]
  {
    assert |s[i..]| == |middle| + |s[j..]|;
    assert forall k :: 0 <= k < |middle| ==> middle[k] == s[i..][k] == s[i + k];
  }

  lemma {:induction false} DropCons<T>(x: T, s: seq<T>, m: nat)
    requires 1 <= m <= |s| + 1
    ensures ([x] + s)[m..] == s[m - 1..]
  {
  }

  lemma {:induction false} PieceSize<T>(units: seq<T>, lo: nat, size: nat, i: nat)
    requires 0 < size && i < |Pieces(units, lo, size)|
    ensures 1 <= |Pieces(units, lo, size)[i]| <= size
    decreases i
  {
    if 0 < i { PieceSize(units, lo + size, size, i - 1); }
  }

  lemma {:induction false} PiecesFlatten<T>(units: seq<T>, lo: nat, size: nat)
    requires 0 < size && lo <= |units|
    ensures Flatten(Pieces(units, lo, size)) == units[lo..]
    decreases |units| - lo
  {
    if lo < |units| {
      var hi := Upto(lo + size, |units|);
      var first, later := units[lo..hi], Pieces(units, lo + size, size);
      assert ([first] + later)[1..] == later;
      SliceSplit(units, lo, hi);
      if lo + size <= |units| {
        PiecesFlatten(units, lo + size, size);
      } else {
        assert later == [] && Flatten(later) == units[hi..];
      }
    }
  }

  /** The pieces are non-empty, no larger than asked, and side by side they are everything from
      the offset to the end: ordered, disjoint and complete. */
  lemma PiecesCover<T>(units: seq<T>, lo: nat, size: nat)
    requires 0 < size && lo <= |units|
    ensures Flatten(Pieces(units, lo, size)) == units[lo..]
    ensures forall p :: p in Pieces(units, lo, size) ==> 1 <= |p| <= size
  {
    PiecesFlatten(units, lo, size);
    var pieces := Pieces(units, lo, size);
    forall p | p in pieces ensures 1 <= |p| <= size {
      var i :| 0 <= i < |pieces| && pieces[i] == p;
      PieceSize(units, lo, size, i);
    }
  }

  lemma {:induction false} MulAtLeast(k: int, size: nat)
    requires 1 <= k
    ensures size <= k * size
  {
    if 1 < k {
      MulAtLeast(k - 1, size);
      assert k * size == (k - 1) * size + size;
    }
  }

  lemma {:induction false} DivUnique(x: nat, size: nat, q: nat, r: nat)
    requires r < size && x == q * size + r
    ensures x / size == q
  {
    var p, t := x / size, x % size;
    assert x == p * size + t;
    assert (p - q) * size == r - t;
    if q < p { MulAtLeast(p - q, size); }
    if p < q { MulAtLeast(q - p, size); }
  }

  lemma {:induction false} DivStep(a: nat, size: nat)
    requires 0 < size
    ensures (a + size) / size == a / size + 1
  {
    var q, r := a / size, a % size;
    assert a == q * size + r;
    assert (q + 1) * size + r == a + size;
    DivUnique(a + size, size, q + 1, r);
  }

  /** Counting the pieces: as many as a rounded-up division says. */
  lemma {:induction false} PiecesCount<T>(units: seq<T>, lo: nat, size: nat)
    requires 0 < size && lo <= |units|
    ensures |Pieces(units, lo, size)| == (|units| - lo + size - 1) / size
    decreases |units| - lo
  {
    if lo < |units| {
      if lo + size <= |units| {
        PiecesCount(units, lo + size, size);
        DivStep(|units| - lo - 1, size);
      } else {
        DivStep(|units| - lo - 1, size);
        assert (|units| - lo - 1) / size == 0;
      }
    } else {
      assert (size - 1) / size == 0;
    }
  }

  lemma {:induction false} OffsetIsNat(k: nat, size: nat)
    ensures 0 <= k * size
  {
  }

  lemma {:induction false} SplitCons<T>(first: T, later: seq<T>, k: nat, rest: seq<T>)
    requires 1 <= k <= |later| + 1 && later[..k - 1] + rest == later
    ensures ([first] + later)[..k] + rest == [first] + later
  {
    assert ([first] + later)[..k] == [first] + later[..k - 1];
    assert [first] + later[..k - 1] + rest == [first] + (later[..k - 1] + rest);
  }

  /** The offset k pieces after `lo`. */
  function Further(lo: nat, size: nat, k: nat): nat
    decreases k
  {
    if k == 0 then lo else Further(lo + size, size, k - 1)
  }

  lemma {:induction false} FurtherIsProduct(lo: nat, size: nat, k: nat)
    ensures Further(lo, size, k) == lo + k * size
    decreases k
  {
    if 0 < k {
      FurtherIsProduct(lo + size, size, k - 1);
      assert k * size == size + (k - 1) * size;
    }
  }

  /** The first k pieces and the pieces that start k chunks later are all pieces. */
  lemma {:induction false} PiecesSplit<T>(units: seq<T>, lo: nat, size: nat, k: nat)
    requires 0 < size && k <= |Pieces(units, lo, size)|
    ensures Pieces(units, lo, size)[..k] + Pieces(units, Further(lo, size, k), size) == Pieces(units, lo, size)
    decreases k
  {
    if 0 < k {
      var first, later := units[lo..Upto(lo + size, |units|)], Pieces(units, lo + size, size);
      PiecesSplit(units, lo + size, size, k - 1);
      SplitCons(first, later, k, Pieces(units, Further(lo + size, size, k - 1), size));
    }
  }

  lemma {:induction false} Wrap<T>(head: seq<T>, tail: seq<T>, k: nat)
    requires k <= |head|
    ensures head + (tail + head)[..|tail| + k] == head + tail + (head + tail)[..k]
  {
    assert (tail + head)[..|tail| + k] == tail + head[..k];
  }

  lemma {:induction false} JoinOne<T>(a: seq<T>, x: T, b: seq<T>)
    ensures a + ([x] + b) == a + [x] + b
  {
  }

  lemma {:induction false} TakeMore<T>(s: seq<T>, m: nat, k: nat)
    requires m + k <= |s|
    ensures s[..m] + s[m..][..k] == s[..m + k]
  {
  }

  lemma {:induction false} TwiceCounts<T>(s: seq<T>, i: nat, j: nat)
    requires i < j < |s| && s[i] == s[j]
    ensures 2 <= multiset(s)[s[i]]
  {
    assert s == s[..i] + [s[i]] + s[i + 1..j] + [s[j]] + s[j + 1..];
  }

  ghost predicate AllDiffer<T>(s: seq<T>) {
    forall i, j :: 0 <= i < j < |s| ==> s[i] != s[j]
  }

  lemma {:induction false} CountsOnce<T>(s: seq<T>, x: T)
    requires AllDiffer(s)
    ensures multiset(s)[x] <= 1
  {
    if s != [] {
      assert forall k :: 0 <= k < |s[1..]| ==> s[1..][k] == s[k + 1] && s[k + 1] != s[0];
      CountsOnce(s[1..], x);
      assert s == [s[0]] + s[1..];
      assert s[0] !in multiset(s[1..]);
    }
  }

  /** Reordering keeps all elements different. */
  lemma {:induction false} ReorderedDiffer<T>(s: seq<T>, r: seq<T>)
    requires AllDiffer(s) && multiset(r) == multiset(s)
    ensures AllDiffer(r)
  {
    forall i, j | 0 <= i < j < |r| ensures r[i] != r[j] {
      CountsOnce(s, r[i]);
      if r[i] == r[j] { TwiceCounts(r, i, j); }
    }
  }
}
