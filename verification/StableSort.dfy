/** The built-in stable sort, on the keys the program sorts by. */
module StableSort {
  import Strings

  /** Null stands for a missing value, which sorts after every other one. */
  datatype Key = Null | Number(x: real) | Text(s: string)

  predicate KeyLess(a: Key, b: Key) {
    match (a, b)
    case (Null, _) => false
    case (_, Null) => true
    case (Number(x), Number(y)) => x < y
    case (Text(s), Text(t)) => Strings.Less(s, t)
    case (Number(_), Text(_)) => true
    case (Text(_), Number(_)) => false
  }

  /** Key a comes strictly before key b; `desc` reverses the order. */
  predicate Precedes(a: Key, b: Key, desc: bool) {
    if desc then KeyLess(b, a) else KeyLess(a, b)
  }

  function Insert<T>(x: T, s: seq<T>, key: T -> Key, desc: bool): seq<T> {
    if s == [] || !Precedes(key(s[0]), key(x), desc) then [x] + s
    else [s[0]] + Insert(x, s[1..], key, desc)
  }

  function Sort<T>(s: seq<T>, key: T -> Key, desc: bool): seq<T> {
    if s == [] then [] else Insert(s[0], Sort(s[1..], key, desc), key, desc)
  }

  ghost predicate Sorted<T>(s: seq<T>, key: T -> Key, desc: bool) {
    forall i, j :: 0 <= i < j < |s| ==> !Precedes(key(s[j]), key(s[i]), desc)
  }

  /** The elements with one key, in their order. */
  function WithKey<T>(s: seq<T>, key: T -> Key, k: Key): seq<T> {
    if s == [] then []
    else (if key(s[0]) == k then [s[0]] else []) + WithKey(s[1..], key, k)
  }

  lemma {:induction false} KeyOrder(a: Key, b: Key, c: Key)
    ensures !(KeyLess(a, b) && KeyLess(b, a))
    ensures KeyLess(a, b) || KeyLess(b, a) <==> a != b
    ensures KeyLess(a, b) && KeyLess(b, c) ==> KeyLess(a, c)
  {
    if a.Text? && b.Text? {
      Strings.LessTrichotomy(a.s, b.s);
      if c.Text? && Strings.Less(a.s, b.s) && Strings.Less(b.s, c.s) { Strings.LessTransitive(a.s, b.s, c.s); }
    }
  }

  lemma {:induction false} InsertContents<T>(x: T, s: seq<T>, key: T -> Key, desc: bool)
    ensures multiset(Insert(x, s, key, desc)) == multiset([x] + s)
    ensures |Insert(x, s, key, desc)| == |s| + 1
  {
    if s != [] && Precedes(key(s[0]), key(x), desc) {
      InsertContents(x, s[1..], key, desc);
      assert s == [s[0]] + s[1..];
    }
  }

  /** Sorting is a permutation. */
  lemma {:induction false} SortPermutes<T>(s: seq<T>, key: T -> Key, desc: bool)
    ensures multiset(Sort(s, key, desc)) == multiset(s)
    ensures |Sort(s, key, desc)| == |s|
  {
    if s != [] {
      SortPermutes(s[1..], key, desc);
      InsertContents(s[0], Sort(s[1..], key, desc), key, desc);
      assert s == [s[0]] + s[1..];
    }
  }

  lemma {:induction false} InsertMember<T>(x: T, s: seq<T>, key: T -> Key, desc: bool, y: T)
    ensures y in Insert(x, s, key, desc) <==> y == x || y in s
  {
    InsertContents(x, s, key, desc);
    assert y in Insert(x, s, key, desc) <==> y in multiset(Insert(x, s, key, desc));
    assert y in [x] + s <==> y in multiset([x] + s);
  }

  lemma {:induction false} NotBeforeIsTransitive(a: Key, b: Key, c: Key, desc: bool)
    requires !Precedes(b, a, desc) && !Precedes(c, b, desc)
    ensures !Precedes(c, a, desc)
  {
    KeyOrder(a, b, c);
    KeyOrder(b, c, a);
    KeyOrder(c, a, b);
    KeyOrder(c, b, a);
    KeyOrder(b, a, c);
    KeyOrder(a, c, b);
  }

  lemma {:induction false} BeforeIsNotAfter(a: Key, b: Key, desc: bool)
    requires Precedes(a, b, desc)
    ensures !Precedes(b, a, desc)
  {
    KeyOrder(a, b, Null);
  }

  lemma {:induction false} InsertFirstSorts<T>(x: T, s: seq<T>, key: T -> Key, desc: bool)
    requires Sorted(s, key, desc) && (s != [] ==> !Precedes(key(s[0]), key(x), desc))
    ensures Sorted([x] + s, key, desc)
  {
    var r := [x] + s;
    forall j | 1 <= j < |r| ensures !Precedes(key(r[j]), key(x), desc) {
      assert r[j] == s[j - 1];
      if 1 < j { NotBeforeIsTransitive(key(x), key(s[0]), key(s[j - 1]), desc); }
    }
  }

  lemma {:induction false} InsertSorts<T>(x: T, s: seq<T>, key: T -> Key, desc: bool)
    requires Sorted(s, key, desc)
    ensures Sorted(Insert(x, s, key, desc), key, desc)
  {
    if s != [] && Precedes(key(s[0]), key(x), desc) {
      var rest := Insert(x, s[1..], key, desc);
      InsertSorts(x, s[1..], key, desc);
      forall j | 0 <= j < |rest| ensures !Precedes(key(rest[j]), key(s[0]), desc) {
        InsertMember(x, s[1..], key, desc, rest[j]);
        BeforeIsNotAfter(key(s[0]), key(x), desc);
      }
      assert Insert(x, s, key, desc) == [s[0]] + rest;
    } else {
      InsertFirstSorts(x, s, key, desc);
    }
  }

  /** The result is in order: no element comes strictly before an earlier one. */
  lemma {:induction false} SortSorts<T>(s: seq<T>, key: T -> Key, desc: bool)
    ensures Sorted(Sort(s, key, desc), key, desc)
  {
    if s != [] {
      SortSorts(s[1..], key, desc);
      InsertSorts(s[0], Sort(s[1..], key, desc), key, desc);
    }
  }

  lemma {:induction false} WithKeyCons<T>(x: T, s: seq<T>, key: T -> Key, k: Key)
    ensures WithKey([x] + s, key, k) == (if key(x) == k then [x] else []) + WithKey(s, key, k)
  {
    assert ([x] + s)[1..] == s;
  }

  lemma {:induction false} InsertStable<T>(x: T, s: seq<T>, key: T -> Key, desc: bool, k: Key)
    ensures WithKey(Insert(x, s, key, desc), key, k) == (if key(x) == k then [x] else []) + WithKey(s, key, k)
  {
    if s != [] && Precedes(key(s[0]), key(x), desc) {
      InsertStable(x, s[1..], key, desc, k);
      BeforeIsNotAfter(key(s[0]), key(x), desc);
      WithKeyCons(s[0], Insert(x, s[1..], key, desc), key, k);
    } else {
      WithKeyCons(x, s, key, k);
    }
  }

  /** The sort is stable in both directions: elements with equal keys keep their order. */
  lemma {:induction false} SortIsStable<T>(s: seq<T>, key: T -> Key, desc: bool, k: Key)
    ensures WithKey(Sort(s, key, desc), key, k) == WithKey(s, key, k)
  {
    if s != [] {
      SortIsStable(s[1..], key, desc, k);
      InsertStable(s[0], Sort(s[1..], key, desc), key, desc, k);
    }
  }

  /** Missing values come last ascending and first descending. */
  lemma NullsAtTheEnd<T>(s: seq<T>, key: T -> Key, desc: bool, i: nat, j: nat)
    requires i < j < |s|
    ensures Sort(s, key, desc) != [] && |Sort(s, key, desc)| == |s|
    ensures var r := Sort(s, key, desc);
            if desc then key(r[j]) == Null ==> key(r[i]) == Null else key(r[i]) == Null ==> key(r[j]) == Null
  {
    SortPermutes(s, key, desc);
    SortSorts(s, key, desc);
    KeyOrder(key(Sort(s, key, desc)[i]), key(Sort(s, key, desc)[j]), Null);
  }

  lemma {:induction false} WithKeyMember<T>(s: seq<T>, key: T -> Key, i: nat)
    requires i < |s|
    ensures WithKey(s, key, key(s[i])) != []
  {
    if 0 < i { WithKeyMember(s[1..], key, i - 1); }
  }

  lemma {:induction false} WithKeyFirst<T>(s: seq<T>, key: T -> Key, k: Key)
    requires WithKey(s, key, k) != []
    ensures exists i :: 0 <= i < |s| && key(s[i]) == k
  {
    if key(s[0]) != k {
      WithKeyFirst(s[1..], key, k);
      var i :| 0 <= i < |s[1..]| && key(s[1..][i]) == k;
      assert s[i + 1] == s[1..][i];
    }
  }

  lemma {:induction false} WithKeyTail<T>(s: seq<T>, key: T -> Key, k: Key)
    requires s != []
    ensures key(s[0]) == k ==> WithKey(s, key, k) != [] && WithKey(s[1..], key, k) == WithKey(s, key, k)[1..]
    ensures key(s[0]) != k ==> WithKey(s[1..], key, k) == WithKey(s, key, k)
  {
    assert ([s[0]] + WithKey(s[1..], key, k))[1..] == WithKey(s[1..], key, k);
    assert [] + WithKey(s[1..], key, k) == WithKey(s[1..], key, k);
  }

  /** Order and stability leave no choice: a sequence in order that keeps the elements of every
      key in their order is the sorted one. */
  lemma {:induction false} SortedAndStableIsUnique<T>(q: seq<T>, r: seq<T>, key: T -> Key, desc: bool)
    requires Sorted(q, key, desc) && Sorted(r, key, desc)
    requires forall k :: WithKey(q, key, k) == WithKey(r, key, k)
    ensures q == r
  {
    if q != [] {
      WithKeyMember(q, key, 0);
      WithKeyFirst(r, key, key(q[0]));
      WithKeyMember(r, key, 0);
      WithKeyFirst(q, key, key(r[0]));
      KeyOrder(key(q[0]), key(r[0]), Null);
      KeyOrder(key(r[0]), key(q[0]), Null);
      assert key(q[0]) == key(r[0]);
      assert WithKey(q, key, key(q[0]))[0] == WithKey(r, key, key(q[0]))[0];
      forall k ensures WithKey(q[1..], key, k) == WithKey(r[1..], key, k) {
        WithKeyTail(q, key, k);
        WithKeyTail(r, key, k);
      }
      SortedAndStableIsUnique(q[1..], r[1..], key, desc);
      assert q == [q[0]] + q[1..] && r == [r[0]] + r[1..];
    }
  }
}
