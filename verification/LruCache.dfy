/** The small cache with expiry and eviction by last use. */
module LruCache {
  import opened Options

  /** The ordered dictionary is a sequence of entries with distinct keys, least recent use first. */
  datatype Entry<V> = Entry(key: string, expires: real, value: V)

  datatype Op<V> = Get(key: string, now: real) | Set(key: string, value: V, now: real)

  /** What an observer sees of an operation: the key was used (set, or found) or missed. */
  datatype Event = Used(key: string) | Missed(key: string)

  function Keys<V>(d: seq<Entry<V>>): set<string> {
    if d == [] then {} else {d[0].key} + Keys(d[1..])
  }

  ghost predicate Distinct<V>(d: seq<Entry<V>>) {
    d != [] ==> d[0].key !in Keys(d[1..]) && Distinct(d[1..])
  }

  function Lookup<V>(d: seq<Entry<V>>, key: string): (e: Option<Entry<V>>)
    ensures e.Some? <==> key in Keys(d)
    ensures e.Some? ==> e.value in d && e.value.key == key
  {
    if d == [] then None else if d[0].key == key then Some(d[0]) else Lookup(d[1..], key)
  }

  function Without<V>(d: seq<Entry<V>>, key: string): seq<Entry<V>> {
    if d == [] then [] else if d[0].key == key then d[1..] else [d[0]] + Without(d[1..], key)
  }

  /** Drops from the front, least recent use first, until the size fits. */
  function Evict<V>(d: seq<Entry<V>>, maxsize: nat): (r: seq<Entry<V>>)
    ensures |r| <= maxsize
  {
    if |d| <= maxsize then d else Evict(d[1..], maxsize)
  }

  function Hit<V>(d: seq<Entry<V>>, key: string, now: real): bool {
    Lookup(d, key).Some? && now < Lookup(d, key).value.expires
  }

  function AfterGet<V>(d: seq<Entry<V>>, key: string, now: real): seq<Entry<V>> {
    if Lookup(d, key).None? then d
    else if Hit(d, key, now) then Without(d, key) + [Lookup(d, key).value]
    else Without(d, key)
  }

  function Found<V>(d: seq<Entry<V>>, key: string, now: real): Option<V> {
    if Hit(d, key, now) then Some(Lookup(d, key).value.value) else None
  }

  function AfterSet<V>(d: seq<Entry<V>>, e: Entry<V>, maxsize: nat): seq<Entry<V>> {
    Evict(Without(d, e.key) + [e], maxsize)
  }

  class TtlLruCache<V> {
    const maxsize: nat
    const ttl: real
    var data: seq<Entry<V>>

    ghost predicate Valid()
      reads this
    {
      0 < maxsize && Distinct(data) && |data| <= maxsize
    }

    constructor (maxsize: int, ttl: real)
      ensures Valid() && data == [] && this.ttl == ttl
      ensures this.maxsize == if 1 < maxsize then maxsize else 1
    {
      this.maxsize := if 1 < maxsize then maxsize else 1;
      this.ttl, data := ttl, [];
    }

    method Get(key: string, now: real) returns (value: Option<V>)
      requires Valid()
      modifies this
      ensures Valid()
      ensures value == Found(old(data), key, now)
      ensures data == AfterGet(old(data), key, now)
    {
      StepKeepsShape(data, Op.Get(key, now), maxsize, ttl);
      var item := Lookup(data, key);
      if item.None? {
        return None;
      }
      if now >= item.value.expires {
        data := Without(data, key);
        return None;
      }
      data := Without(data, key) + [item.value];
      return Some(item.value.value);
    }

    method Set(key: string, value: V, now: real)
      requires Valid()
      modifies this
      ensures Valid()
      ensures data == AfterSet(old(data), Entry(key, now + ttl, value), maxsize)
    {
      StepKeepsShape(data, Op.Set(key, value, now), maxsize, ttl);
      data := Without(data, key) + [Entry(key, now + ttl, value)];
      ghost var full := data;
      while |data| > maxsize
        invariant Evict(data, maxsize) == Evict(full, maxsize)
      {
        data := data[1..];
      }
    }

    method Len() returns (n: nat)
      ensures n == |data|
    {
      n := |data|;
    }
  }

  function Step<V>(d: seq<Entry<V>>, op: Op<V>, maxsize: nat, ttl: real): seq<Entry<V>> {
    match op
    case Get(key, now) => AfterGet(d, key, now)
    case Set(key, value, now) => AfterSet(d, Entry(key, now + ttl, value), maxsize)
  }

  function Observe<V>(d: seq<Entry<V>>, op: Op<V>): Event {
    if op.Set? || Hit(d, op.key, op.now) then Used(op.key) else Missed(op.key)
  }

  /** The cache after a whole sequence of operations that starts from `d`. */
  function Run<V>(d: seq<Entry<V>>, ops: seq<Op<V>>, maxsize: nat, ttl: real): seq<Entry<V>> {
    if ops == [] then d
    else Step(Run(d, ops[..|ops| - 1], maxsize, ttl), ops[|ops| - 1], maxsize, ttl)
  }

  function Events<V>(d: seq<Entry<V>>, ops: seq<Op<V>>, maxsize: nat, ttl: real): (ev: seq<Event>)
    ensures |ev| == |ops|
  {
    if ops == [] then []
    else
      var before := ops[..|ops| - 1];
      Events(d, before, maxsize, ttl) + [Observe(Run(d, before, maxsize, ttl), ops[|ops| - 1])]
  }

  // ----- The shape of the dictionary -----

  lemma {:induction false} KeysAppend<V>(d: seq<Entry<V>>, e: Entry<V>)
    ensures Keys(d + [e]) == Keys(d) + {e.key}
    ensures Distinct(d) && e.key !in Keys(d) ==> Distinct(d + [e])
  {
    if d != [] {
      assert (d + [e])[1..] == d[1..] + [e];
      KeysAppend(d[1..], e);
    } else {
      assert (d + [e])[1..] == [];
    }
  }

  lemma {:induction false} WithoutKeys<V>(d: seq<Entry<V>>, key: string)
    requires Distinct(d)
    ensures Keys(Without(d, key)) == Keys(d) - {key} && Distinct(Without(d, key))
    ensures |Without(d, key)| == |d| - if key in Keys(d) then 1 else 0
  {
    if d != [] && d[0].key != key {
      WithoutKeys(d[1..], key);
      assert Without(d, key)[1..] == Without(d[1..], key);
    }
  }

  lemma {:induction false} EvictKeepsDistinct<V>(d: seq<Entry<V>>, maxsize: nat)
    requires Distinct(d)
    ensures Distinct(Evict(d, maxsize)) && Keys(Evict(d, maxsize)) <= Keys(d)
  {
    if maxsize < |d| { EvictKeepsDistinct(d[1..], maxsize); }
  }

  lemma {:induction false} StepKeepsShape<V>(d: seq<Entry<V>>, op: Op<V>, maxsize: nat, ttl: real)
    requires Distinct(d) && |d| <= maxsize
    ensures Distinct(Step(d, op, maxsize, ttl)) && |Step(d, op, maxsize, ttl)| <= maxsize
  {
    WithoutKeys(d, op.key);
    match op
    case Get(key, now) =>
      if Hit(d, key, now) { KeysAppend(Without(d, key), Lookup(d, key).value); }
    case Set(key, value, now) =>
      var e := Entry(key, now + ttl, value);
      KeysAppend(Without(d, key), e);
      EvictKeepsDistinct(Without(d, key) + [e], maxsize);
  }

  /** Over every sequence of operations the size never exceeds maxsize and no key occurs twice. */
  lemma {:induction false} RunKeepsShape<V>(d: seq<Entry<V>>, ops: seq<Op<V>>, maxsize: nat, ttl: real)
    requires Distinct(d) && |d| <= maxsize
    ensures Distinct(Run(d, ops, maxsize, ttl)) && |Run(d, ops, maxsize, ttl)| <= maxsize
  {
    if ops != [] {
      var before := ops[..|ops| - 1];
      RunKeepsShape(d, before, maxsize, ttl);
      StepKeepsShape(Run(d, before, maxsize, ttl), ops[|ops| - 1], maxsize, ttl);
    }
  }

  // ----- What a get returns: the value of the last set of its key -----

  /** The last set of a key among the operations. */
  function LastSet<V>(ops: seq<Op<V>>, key: string): Option<Op<V>> {
    if ops == [] then None
    else
      var op := ops[|ops| - 1];
      if op.Set? && op.key == key then Some(op) else LastSet(ops[..|ops| - 1], key)
  }

  ghost predicate FromLastSet<V>(e: Entry<V>, ops: seq<Op<V>>, ttl: real) {
    var s := LastSet(ops, e.key);
    s.Some? && s.value.Set? && e == Entry(e.key, s.value.now + ttl, s.value.value)
  }

  lemma {:induction false} WithoutMembers<V>(d: seq<Entry<V>>, key: string)
    requires Distinct(d)
    ensures forall e :: e in Without(d, key) ==> e in d && e.key != key
  {
    if d != [] {
      if d[0].key == key {
        forall e | e in d[1..] ensures e.key != key { MemberKey(d[1..], e); }
      } else {
        WithoutMembers(d[1..], key);
      }
    }
  }

  lemma {:induction false} MemberKey<V>(d: seq<Entry<V>>, e: Entry<V>)
    requires e in d
    ensures e.key in Keys(d)
  {
    if d[0] != e { MemberKey(d[1..], e); }
  }

  lemma {:induction false} EvictMembers<V>(d: seq<Entry<V>>, maxsize: nat)
    ensures forall e :: e in Evict(d, maxsize) ==> e in d
  {
    if maxsize < |d| { EvictMembers(d[1..], maxsize); }
  }

  /** Every entry ever held carries the value and the time of the last set of its key. */
  lemma {:induction false} EntriesComeFromLastSets<V>(ops: seq<Op<V>>, maxsize: nat, ttl: real, e: Entry<V>)
    requires e in Run([], ops, maxsize, ttl)
    ensures FromLastSet(e, ops, ttl)
  {
    if ops != [] {
      var before, op := ops[..|ops| - 1], ops[|ops| - 1];
      var d := Run([], before, maxsize, ttl);
      RunKeepsShape([], before, maxsize, ttl);
      WithoutMembers(d, op.key);
      if op.Set? { EvictMembers(Without(d, op.key) + [Entry(op.key, op.now + ttl, op.value)], maxsize); }
      if e in d && !(op.Set? && e.key == op.key) {
        EntriesComeFromLastSets(before, maxsize, ttl, e);
      }
    }
  }

  /** A get never returns an expired or outdated value, after any operations. */
  lemma GetReturnsLastUnexpiredSet<V>(ops: seq<Op<V>>, maxsize: nat, ttl: real, key: string, now: real)
    requires Found(Run([], ops, maxsize, ttl), key, now).Some?
    ensures var s := LastSet(ops, key);
            s.Some? && s.value.Set? && now < s.value.now + ttl
            && Found(Run([], ops, maxsize, ttl), key, now) == Some(s.value.value)
  {
    EntriesComeFromLastSets(ops, maxsize, ttl, Lookup(Run([], ops, maxsize, ttl), key).value);
  }

  // ----- The order of the dictionary: last use -----

  /** The position of the last use of a key, or -1. */
  function LastUse(ev: seq<Event>, key: string): int {
    if ev == [] then -1
    else if ev[|ev| - 1] == Used(key) then |ev| - 1
    else LastUse(ev[..|ev| - 1], key)
  }

  lemma {:induction false} LastUseRange(ev: seq<Event>, key: string)
    ensures -1 <= LastUse(ev, key) < |ev|
  {
    if ev != [] { LastUseRange(ev[..|ev| - 1], key); }
  }

  ghost predicate InOrderOfUse<V>(d: seq<Entry<V>>, ev: seq<Event>) {
    d != [] ==>
      && 0 <= LastUse(ev, d[0].key)
      && (forall e :: e in d[1..] ==> LastUse(ev, d[0].key) < LastUse(ev, e.key))
      && InOrderOfUse(d[1..], ev)
  }

  lemma {:induction false} OrderSkips<V>(d: seq<Entry<V>>, ev: seq<Event>, x: Event)
    requires InOrderOfUse(d, ev) && (x.Used? ==> x.key !in Keys(d))
    ensures InOrderOfUse(d, ev + [x])
  {
    assert (ev + [x])[..|ev|] == ev;
    if d != [] {
      OrderSkips(d[1..], ev, x);
      forall e | e in d[1..] ensures LastUse(ev + [x], e.key) == LastUse(ev, e.key) { MemberKey(d[1..], e); }
    }
  }

  lemma {:induction false} OrderWithout<V>(d: seq<Entry<V>>, ev: seq<Event>, key: string)
    requires Distinct(d) && InOrderOfUse(d, ev)
    ensures InOrderOfUse(Without(d, key), ev)
  {
    if d != [] && d[0].key != key {
      OrderWithout(d[1..], ev, key);
      WithoutMembers(d[1..], key);
      assert Without(d, key)[1..] == Without(d[1..], key);
    }
  }

  lemma {:induction false} OrderAppend<V>(d: seq<Entry<V>>, ev: seq<Event>, e: Entry<V>)
    requires InOrderOfUse(d, ev) && e.key !in Keys(d)
    ensures InOrderOfUse(d + [e], ev + [Used(e.key)])
  {
    var after := ev + [Used(e.key)];
    assert after[..|ev|] == ev;
    if d == [] {
      assert [e][1..] == [];
    } else {
      OrderAppend(d[1..], ev, e);
      assert (d + [e])[1..] == d[1..] + [e];
      LastUseRange(ev, d[0].key);
      forall x | x in d[1..] + [e] ensures LastUse(after, d[0].key) < LastUse(after, x.key) {
        if x in d[1..] && x != e { MemberKey(d[1..], x); }
      }
    }
  }

  lemma {:induction false} OrderEvict<V>(d: seq<Entry<V>>, ev: seq<Event>, maxsize: nat)
    requires InOrderOfUse(d, ev)
    ensures InOrderOfUse(Evict(d, maxsize), ev)
  {
    if maxsize < |d| { OrderEvict(d[1..], ev, maxsize); }
  }

  lemma {:induction false} GetKeepsOrderOfUse<V>(d: seq<Entry<V>>, ev: seq<Event>, key: string, now: real)
    requires Distinct(d) && InOrderOfUse(d, ev)
    ensures InOrderOfUse(AfterGet(d, key, now), ev + [if Hit(d, key, now) then Used(key) else Missed(key)])
  {
    WithoutKeys(d, key);
    OrderWithout(d, ev, key);
    if Hit(d, key, now) {
      OrderAppend(Without(d, key), ev, Lookup(d, key).value);
    } else {
      OrderSkips(if Lookup(d, key).Some? then Without(d, key) else d, ev, Missed(key));
    }
  }

  lemma {:induction false} SetKeepsOrderOfUse<V>(d: seq<Entry<V>>, ev: seq<Event>, e: Entry<V>, maxsize: nat)
    requires Distinct(d) && InOrderOfUse(d, ev)
    ensures InOrderOfUse(AfterSet(d, e, maxsize), ev + [Used(e.key)])
  {
    WithoutKeys(d, e.key);
    OrderWithout(d, ev, e.key);
    OrderAppend(Without(d, e.key), ev, e);
    OrderEvict(Without(d, e.key) + [e], ev + [Used(e.key)], maxsize);
  }

  lemma {:induction false} StepKeepsOrderOfUse<V>(d: seq<Entry<V>>, ev: seq<Event>, op: Op<V>, maxsize: nat, ttl: real)
    requires Distinct(d) && InOrderOfUse(d, ev)
    ensures InOrderOfUse(Step(d, op, maxsize, ttl), ev + [Observe(d, op)])
  {
    match op
    case Get(key, now) => GetKeepsOrderOfUse(d, ev, key, now);
    case Set(key, value, now) => SetKeepsOrderOfUse(d, ev, Entry(key, now + ttl, value), maxsize);
  }

  /** After any operations the entries stand in the order in which their keys were last used. */
  lemma {:induction false} RunKeepsOrderOfUse<V>(ops: seq<Op<V>>, maxsize: nat, ttl: real)
    ensures InOrderOfUse(Run([], ops, maxsize, ttl), Events([], ops, maxsize, ttl))
  {
    if ops != [] {
      var before := ops[..|ops| - 1];
      RunKeepsOrderOfUse(before, maxsize, ttl);
      RunKeepsShape([], before, maxsize, ttl);
      StepKeepsOrderOfUse(Run([], before, maxsize, ttl), Events([], before, maxsize, ttl), ops[|ops| - 1], maxsize,
          ttl);
    }
  }

  // ----- Retention: exactly when a key survives -----

  /** The keys that were used since and not found expired since: those that stand behind a key
      whose last use was just before `ev`. */
  function Behind(ev: seq<Event>): set<string> {
    if ev == [] then {}
    else
      var x, earlier := ev[|ev| - 1], Behind(ev[..|ev| - 1]);
      if x.Used? then earlier + {x.key} else earlier - {x.key}
  }

  /** At no time did `maxsize` other keys stand behind. */
  ghost predicate NeverCrowded(ev: seq<Event>, maxsize: nat) {
    |Behind(ev)| < maxsize && (ev != [] ==> NeverCrowded(ev[..|ev| - 1], maxsize))
  }

  /** The keys after `key` in the dictionary. */
  function After<V>(d: seq<Entry<V>>, key: string): set<string> {
    if d == [] then {} else if d[0].key == key then Keys(d[1..]) else After(d[1..], key)
  }

  lemma {:induction false} KeysCount<V>(d: seq<Entry<V>>)
    requires Distinct(d)
    ensures |Keys(d)| == |d|
  {
    if d != [] { KeysCount(d[1..]); }
  }

  lemma {:induction false} AfterCount<V>(d: seq<Entry<V>>, key: string)
    requires Distinct(d) && key in Keys(d)
    ensures key !in After(d, key) && After(d, key) <= Keys(d)
    ensures |After(d, key)| <= |d| - 1
    ensures |After(d, key)| == |d| - 1 <==> d[0].key == key
  {
    KeysCount(d[1..]);
    if d[0].key != key { AfterCount(d[1..], key); }
  }

  lemma {:induction false} AfterWithout<V>(d: seq<Entry<V>>, key: string, x: string)
    requires Distinct(d) && key in Keys(d) && x != key
    ensures After(Without(d, x), key) == After(d, key) - {x}
    ensures Lookup(Without(d, x), key) == Lookup(d, key)
  {
    WithoutKeys(d, x);
    if d[0].key == x {
      AfterCount(d[1..], key);
    } else {
      assert Without(d, x)[1..] == Without(d[1..], x);
      WithoutKeys(d[1..], x);
      if d[0].key != key { AfterWithout(d[1..], key, x); }
    }
  }

  lemma {:induction false} AfterAppend<V>(d: seq<Entry<V>>, key: string, e: Entry<V>)
    requires key in Keys(d) && e.key != key
    ensures After(d + [e], key) == After(d, key) + {e.key}
    ensures Lookup(d + [e], key) == Lookup(d, key)
  {
    assert (d + [e])[1..] == d[1..] + [e];
    KeysAppend(d[1..], e);
    if d[0].key != key { AfterAppend(d[1..], key, e); }
  }

  /** What one operation on another key does to the keys behind `key`. */
  function BehindAfter<V>(d: seq<Entry<V>>, op: Op<V>, key: string): set<string> {
    if Observe(d, op).Used? then After(d, key) + {op.key} else After(d, key) - {op.key}
  }

  ghost predicate Retains<V>(d: seq<Entry<V>>, op: Op<V>, after: seq<Entry<V>>, maxsize: nat, key: string) {
    && (key in Keys(after) <==> |BehindAfter(d, op, key)| < maxsize)
    && (key in Keys(after) ==> After(after, key) == BehindAfter(d, op, key) && Lookup(after, key) == Lookup(d, key))
  }

  /** Moving `e` to the end of a dictionary that holds `key`. */
  lemma {:induction false} MoveToEnd<V>(d: seq<Entry<V>>, e: Entry<V>, key: string)
    requires Distinct(d) && e.key != key && key in Keys(d)
    ensures var full := Without(d, e.key) + [e];
            && Distinct(full) && key in Keys(full)
            && After(full, key) == After(d, key) + {e.key}
            && Lookup(full, key) == Lookup(d, key)
            && |After(full, key)| <= |full| - 1
            && (|After(full, key)| == |full| - 1 <==> full[0].key == key)
  {
    var rest := Without(d, e.key);
    WithoutKeys(d, e.key);
    AfterWithout(d, key, e.key);
    KeysAppend(rest, e);
    AfterAppend(rest, key, e);
    AfterCount(rest + [e], key);
    assert After(d, key) - {e.key} + {e.key} == After(d, key) + {e.key};
  }

  lemma {:induction false} ExpiredRetention<V>(d: seq<Entry<V>>, x: string, maxsize: nat, key: string)
    requires Distinct(d) && |d| <= maxsize && x != key && key in Keys(d)
    ensures var left := Without(d, x);
            && key in Keys(left) && |After(d, key) - {x}| < maxsize
            && After(left, key) == After(d, key) - {x} && Lookup(left, key) == Lookup(d, key)
  {
    WithoutKeys(d, x);
    AfterWithout(d, key, x);
    AfterCount(d, key);
    Larger(After(d, key) - {x}, After(d, key));
  }

  lemma {:induction false} MissRetention<V>(d: seq<Entry<V>>, x: string, now: real, maxsize: nat, key: string)
    requires Distinct(d) && |d| <= maxsize && x != key && key in Keys(d) && !Hit(d, x, now)
    ensures Retains(d, Op.Get(x, now), AfterGet(d, x, now), maxsize, key)
  {
    if Lookup(d, x).Some? {
      ExpiredRetention(d, x, maxsize, key);
    } else {
      AfterCount(d, key);
      assert After(d, key) - {x} == After(d, key);
    }
  }

  lemma {:induction false} GetRetention<V>(d: seq<Entry<V>>, x: string, now: real, maxsize: nat, key: string)
    requires Distinct(d) && |d| <= maxsize && x != key && key in Keys(d)
    ensures Retains(d, Op.Get(x, now), AfterGet(d, x, now), maxsize, key)
  {
    if Hit(d, x, now) {
      WithoutKeys(d, x);
      MoveToEnd(d, Lookup(d, x).value, key);
    } else {
      MissRetention(d, x, now, maxsize, key);
    }
  }

  lemma {:induction false} EvictFirst<V>(full: seq<Entry<V>>, maxsize: nat, key: string)
    requires Distinct(full) && |full| == maxsize + 1 && key in Keys(full)
    ensures var left := Evict(full, maxsize);
            && (key in Keys(left) <==> full[0].key != key)
            && (key in Keys(left) ==> After(left, key) == After(full, key) && Lookup(left, key) == Lookup(full, key))
  {
    assert Evict(full, maxsize) == full[1..];
  }

  lemma {:induction false} SetRetention<V>(d: seq<Entry<V>>, e: Entry<V>, now: real, maxsize: nat, key: string)
    requires Distinct(d) && |d| <= maxsize && e.key != key && key in Keys(d)
    ensures Retains(d, Op.Set(e.key, e.value, now), AfterSet(d, e, maxsize), maxsize, key)
  {
    var full := Without(d, e.key) + [e];
    WithoutKeys(d, e.key);
    MoveToEnd(d, e, key);
    if maxsize < |full| { EvictFirst(full, maxsize, key); }
  }

  /** One operation on another key: it survives exactly while fewer than maxsize stand behind it. */
  lemma {:induction false} StepRetention<V>(d: seq<Entry<V>>, op: Op<V>, maxsize: nat, ttl: real, key: string)
    requires Distinct(d) && |d| <= maxsize && op.key != key && key in Keys(d)
    ensures Retains(d, op, Step(d, op, maxsize, ttl), maxsize, key)
  {
    match op
    case Get(x, now) => GetRetention(d, x, now, maxsize, key);
    case Set(x, value, now) => SetRetention(d, Entry(x, now + ttl, value), now, maxsize, key);
  }

  lemma {:induction false} StepLeavesAbsent<V>(d: seq<Entry<V>>, op: Op<V>, maxsize: nat, ttl: real, key: string)
    requires Distinct(d) && op.key != key && key !in Keys(d)
    ensures key !in Keys(Step(d, op, maxsize, ttl))
  {
    WithoutKeys(d, op.key);
    match op
    case Get(x, now) =>
      if Hit(d, x, now) { KeysAppend(Without(d, x), Lookup(d, x).value); }
    case Set(x, value, now) =>
      var e := Entry(x, now + ttl, value);
      KeysAppend(Without(d, x), e);
      EvictKeepsDistinct(Without(d, x) + [e], maxsize);
  }

  ghost predicate Untouched<V>(ops: seq<Op<V>>, key: string) {
    ops != [] ==> ops[|ops| - 1].key != key && Untouched(ops[..|ops| - 1], key)
  }

  /** From a state in which `key` was just used, over any operations on other keys: it is still
      there, unchanged, exactly when never maxsize other keys stood behind it. */
  lemma {:induction false} RunRetention<V>(d: seq<Entry<V>>, ops: seq<Op<V>>, maxsize: nat, ttl: real, key: string)
    requires Distinct(d) && |d| <= maxsize && Untouched(ops, key)
    requires key in Keys(d) && After(d, key) == {}
    ensures var after := Run(d, ops, maxsize, ttl);
            var ev := Events(d, ops, maxsize, ttl);
            && (key in Keys(after) <==> NeverCrowded(ev, maxsize))
            && (key in Keys(after) ==> After(after, key) == Behind(ev) && Lookup(after, key) == Lookup(d, key))
  {
    AfterCount(d, key);
    if ops != [] {
      var before, op := ops[..|ops| - 1], ops[|ops| - 1];
      var mid, ev := Run(d, before, maxsize, ttl), Events(d, before, maxsize, ttl);
      RunRetention(d, before, maxsize, ttl, key);
      RunKeepsShape(d, before, maxsize, ttl);
      assert Events(d, ops, maxsize, ttl)[..|ops| - 1] == ev;
      if key in Keys(mid) {
        StepRetention(mid, op, maxsize, ttl, key);
      } else {
        StepLeavesAbsent(mid, op, maxsize, ttl, key);
      }
    }
  }

  lemma {:induction false} RunSplit<V>(d: seq<Entry<V>>, a: seq<Op<V>>, b: seq<Op<V>>, maxsize: nat, ttl: real)
    ensures Run(d, a + b, maxsize, ttl) == Run(Run(d, a, maxsize, ttl), b, maxsize, ttl)
  {
    if b == [] {
      assert a + b == a;
    } else {
      assert (a + b)[..|a + b| - 1] == a + b[..|b| - 1];
      RunSplit(d, a, b[..|b| - 1], maxsize, ttl);
    }
  }

  lemma {:induction false} LastSetSkips<V>(a: seq<Op<V>>, b: seq<Op<V>>, key: string)
    requires Untouched(b, key)
    ensures LastSet(a + b, key) == LastSet(a, key)
  {
    if b == [] {
      assert a + b == a;
    } else {
      assert (a + b)[..|a + b| - 1] == a + b[..|b| - 1];
      LastSetSkips(a, b[..|b| - 1], key);
    }
  }

  /** Right after an operation that used its key, that key stands last. */
  lemma {:induction false} UsedStandsLast<V>(d: seq<Entry<V>>, op: Op<V>, maxsize: nat, ttl: real)
    requires Distinct(d) && |d| <= maxsize && 0 < maxsize && Observe(d, op).Used?
    ensures var after := Step(d, op, maxsize, ttl);
            op.key in Keys(after) && After(after, op.key) == {}
  {
    WithoutKeys(d, op.key);
    var e := if op.Set? then Entry(op.key, op.now + ttl, op.value) else Lookup(d, op.key).value;
    LastStands(Without(d, op.key), e);
    if op.Set? && maxsize < |Without(d, op.key) + [e]| {
      assert (Without(d, op.key) + [e])[1..] == Without(d, op.key)[1..] + [e];
      LastStands(Without(d, op.key)[1..], e);
      assert Evict(Without(d, op.key) + [e], maxsize) == Without(d, op.key)[1..] + [e];
    }
  }

  lemma {:induction false} LastStands<V>(d: seq<Entry<V>>, e: Entry<V>)
    requires e.key !in Keys(d)
    ensures e.key in Keys(d + [e]) && After(d + [e], e.key) == {}
  {
    if d != [] {
      assert (d + [e])[1..] == d[1..] + [e];
      LastStands(d[1..], e);
    } else {
      assert (d + [e])[1..] == [];
    }
  }

  /** The exact meaning of a get. Split any history at the last use of the key (a set, or a get
      that found it): the get returns the value of the key's last set if that has not expired and
      never maxsize other keys stood behind the key, and otherwise nothing. */
  lemma {:induction false} GetIsExact<V>(pre: seq<Op<V>>, use: Op<V>, mid: seq<Op<V>>, maxsize: nat, ttl: real,
        now: real)
    requires 0 < maxsize && Observe(Run([], pre, maxsize, ttl), use).Used? && Untouched(mid, use.key)
    ensures var ops := pre + [use] + mid;
            var ev := Events(Run([], pre + [use], maxsize, ttl), mid, maxsize, ttl);
            var s := LastSet(ops, use.key);
            && s.Some? && s.value.Set?
            && Found(Run([], ops, maxsize, ttl), use.key, now)
               == if now < s.value.now + ttl && NeverCrowded(ev, maxsize) then Some(s.value.value) else None
  {
    var used := pre + [use];
    var d := Run([], used, maxsize, ttl);
    assert used[..|pre|] == pre;
    RunKeepsShape([], pre, maxsize, ttl);
    RunKeepsShape([], used, maxsize, ttl);
    UsedStandsLast(Run([], pre, maxsize, ttl), use, maxsize, ttl);
    RunRetention(d, mid, maxsize, ttl, use.key);
    RunSplit([], used, mid, maxsize, ttl);
    LastSetSkips(used, mid, use.key);
    EntriesComeFromLastSets(used, maxsize, ttl, Lookup(d, use.key).value);
  }

  function UsedKeys(ev: seq<Event>): set<string> {
    if ev == [] then {}
    else UsedKeys(ev[..|ev| - 1]) + if ev[|ev| - 1].Used? then {ev[|ev| - 1].key} else {}
  }

  lemma {:induction false} FewUsesNeverCrowd(ev: seq<Event>, maxsize: nat)
    requires |UsedKeys(ev)| < maxsize
    ensures Behind(ev) <= UsedKeys(ev) && NeverCrowded(ev, maxsize)
  {
    if ev != [] {
      var earlier := ev[..|ev| - 1];
      Larger(UsedKeys(earlier), UsedKeys(ev));
      FewUsesNeverCrowd(earlier, maxsize);
      Larger(Behind(ev), UsedKeys(ev));
    } else {
      Larger({}, UsedKeys(ev));
    }
  }

  lemma {:induction false} Larger<T>(a: set<T>, b: set<T>)
    requires a <= b
    ensures |a| <= |b|
  {
    assert b == a + (b - a);
  }

  /** A key keeps its value while fewer than maxsize distinct other keys are used. */
  lemma {:induction false} FewUsesKeepTheValue<V>(pre: seq<Op<V>>, use: Op<V>, mid: seq<Op<V>>, maxsize: nat,
      ttl: real, now: real)
    requires Observe(Run([], pre, maxsize, ttl), use).Used? && Untouched(mid, use.key)
    requires |UsedKeys(Events(Step(Run([], pre, maxsize, ttl), use, maxsize, ttl), mid, maxsize, ttl))| < maxsize
    ensures var s := LastSet(pre + [use] + mid, use.key);
            && s.Some? && s.value.Set?
            && Found(Run([], pre + [use] + mid, maxsize, ttl), use.key, now)
               == if now < s.value.now + ttl then Some(s.value.value) else None
  {
    Last(pre + [use], pre, use, maxsize, ttl);
    GetIsExact(pre, use, mid, maxsize, ttl, now);
    FewUsesNeverCrowd(Events(Run([], pre + [use], maxsize, ttl), mid, maxsize, ttl), maxsize);
  }

  /** With two places: a and b are set, and a get moves a behind b. */
  lemma {:induction false} HitMovesBehind(ttl: real)
    requires 0.0 < ttl
    ensures Run([], [Set("a", 1, 0.0), Set("b", 2, 0.0), Op<int>.Get("a", 0.0)], 2, ttl) ==
            [Entry("b", ttl, 2), Entry("a", ttl, 1)]
  {
    var sa, sb, ga := Set("a", 1, 0.0), Set("b", 2, 0.0), Op<int>.Get("a", 0.0);
    var a, b := Entry("a", ttl, 1), Entry("b", ttl, 2);
    assert Run([], [sa], 2, ttl) == [a];
    Pair(a, b, "a");
    assert Step([a], sb, 2, ttl) == [a, b];
    assert Step([a, b], ga, 2, ttl) == [b, a];
    Last([sa, sb], [sa], sb, 2, ttl);
    Last([sa, sb, ga], [sa, sb], ga, 2, ttl);
  }

  /** Then setting c evicts b. */
  lemma {:induction false} SetEvictsFirst(ttl: real)
    ensures Step([Entry("b", ttl, 2), Entry("a", ttl, 1)], Set("c", 3, 0.0), 2, ttl) ==
            [Entry("a", ttl, 1), Entry("c", ttl, 3)]
  {
    var a, b, c := Entry("a", ttl, 1), Entry("b", ttl, 2), Entry("c", ttl, 3);
    Pair(b, a, "c");
    assert Evict([b, a, c], 2) == [a, c] by { assert [b, a, c][1..] == [a, c]; }
    assert [b, a] + [c] == [b, a, c];
  }

  /** Counting only the keys that were set is not enough: with two places, b is gone after one
      other key was set since its last use, because a get moved a behind it. */
  lemma {:induction false} FewSetsDoNotKeepTheValue(ttl: real)
    requires 0.0 < ttl
    ensures Found(Run([], [Set("a", 1, 0.0), Set("b", 2, 0.0), Op<int>.Get("a", 0.0), Set("c", 3, 0.0)], 2, ttl),
            "b", 0.0)
            == None
  {
    var before := [Set("a", 1, 0.0), Set("b", 2, 0.0), Op<int>.Get("a", 0.0)];
    HitMovesBehind(ttl);
    SetEvictsFirst(ttl);
    Last(before + [Set("c", 3, 0.0)], before, Set("c", 3, 0.0), 2, ttl);
    assert before + [Set("c", 3, 0.0)] == [Set("a", 1, 0.0), Set("b", 2, 0.0), Op<int>.Get("a", 0.0), Set("c", 3, 0.0)];
    Pair(Entry("a", ttl, 1), Entry("c", ttl, 3), "b");
  }

  lemma {:induction false} Last<V>(ops: seq<Op<V>>, before: seq<Op<V>>, op: Op<V>, maxsize: nat, ttl: real)
    requires ops == before + [op]
    ensures Run([], ops, maxsize, ttl) == Step(Run([], before, maxsize, ttl), op, maxsize, ttl)
  {
    assert ops[..|ops| - 1] == before;
  }

  lemma {:induction false} Pair<V>(x: Entry<V>, y: Entry<V>, key: string)
    requires x.key != y.key && key != y.key
    ensures Without([x], y.key) == [x]
    ensures Without([x, y], key) == if key == x.key then [y] else [x, y]
    ensures Lookup([x, y], key) == if key == x.key then Some(x) else None
  {
    assert [x, y][1..] == [y] && [y][1..] == [] && [x][1..] == [];
    assert Without([y], key) == [y] && [x] + [y] == [x, y];
  }
}
