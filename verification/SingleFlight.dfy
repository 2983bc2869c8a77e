/** The single-flight protocol of the stock speed lane. */
module SingleFlight {
  import opened Options

  datatype Row = Row(symbol: string, speed: Option<real>)

  /** The hash of the sorted symbols: it ignores order and nothing else. */
  datatype Key = Key(symbols: multiset<string>)

  type Event = nat

  /** Where a request thread stands. `top` is how many rows its caller asked for. */
  datatype Thread =
    | Idle
    | Missed(key: Key, top: nat)                             // the cache had nothing
    | Waiting(key: Key, top: nat, ev: Event)                 // another thread owns the key
    | Rereading(key: Key, top: nat)                          // woken, or timed out
    | Computing(key: Key, top: nat, ev: Event)               // owner, inside the try block
    | Leaving(key: Key, top: nat, ev: Event,
        rows: Option<seq<Row>>)   // owner, in finally; None when an exception flies
    | Popping(key: Key, top: nat, ev: Event, rows: Option<seq<Row>>)   // owner, event set, key still registered
    | Returned(key: Key, top: nat, answer: seq<Row>)
    | Raised(key: Key)

  /** A registered event. `owner` only records which thread registered it. */
  datatype Flight = Flight(ev: Event, owner: nat)

  datatype State = State(
    threads: seq<Thread>,
    inflight: map<Key, Flight>,
    done: set<Event>,                 // events that have been set
    created: Event,                   // events below this one have been created
    cache: map<Key, seq<Row>>,
    stored: set<(Key, seq<Row>)>)     // everything any owner ever stored

  /** One step that the locks or the interpreter make atomic. An action that is not enabled leaves
      the state as it is, so every list of actions is an interleaving of the threads. */
  datatype Action =
    | Begin(t: nat, pool: seq<string>, top: nat)
    | Register(t: nat)
    | Store(t: nat, rows: seq<Row>)
    | Fail(t: nat)
    | SetEvent(t: nat)
    | Pop(t: nat)
    | Wake(t: nat)
    | Timeout(t: nat)
    | Reread(t: nat)
    | Drop(key: Key)                  // the cache expires or evicts an entry

  function Take(rows: seq<Row>, top: nat): seq<Row> {
    if |rows| <= top then rows else rows[..top]
  }

  function PoolKey(pool: seq<string>): Key {
    Key(multiset(pool))
  }

  function Init(n: nat): State {
    State(seq(n, _ => Idle), map[], {}, 0, map[], {})
  }

  function Put(s: State, t: nat, th: Thread): State
    requires t < |s.threads|
  {
    s.(threads := s.threads[t := th])
  }

  function Next(s: State, a: Action): (r: State)
    ensures |r.threads| == |s.threads|
  {
    if a.Drop? then
      s.(cache := s.cache - {a.key})
    else if |s.threads| <= a.t then
      s
    else
      var th := s.threads[a.t];
      match a
      case Begin(t, pool, top) =>
        if !(th.Idle? || th.Returned? || th.Raised?) then s
        else
          var key := PoolKey(pool);
          if pool == [] then Put(s, t, Returned(key, top, []))
          else if key in s.cache then Put(s, t, Returned(key, top, Take(s.cache[key], top)))
          else Put(s, t, Missed(key, top))
      case Register(t) =>
        if !th.Missed? then s
        else if th.key in s.inflight then Put(s, t, Waiting(th.key, th.top, s.inflight[th.key].ev))
        else Put(s, t, Computing(th.key, th.top, s.created)).(
             inflight := s.inflight[th.key := Flight(s.created, t)], created := s.created + 1)
      case Store(t, rows) =>
        if !th.Computing? then s
        else Put(s, t, Leaving(th.key, th.top, th.ev, Some(rows))).(
             cache := s.cache[th.key := rows], stored := s.stored + {(th.key, rows)})
      case Fail(t) =>
        if !th.Computing? then s else Put(s, t, Leaving(th.key, th.top, th.ev, None))
      case SetEvent(t) =>
        if !th.Leaving? then s
        else Put(s, t, Popping(th.key, th.top, th.ev, th.rows)).(done := s.done + {th.ev})
      case Pop(t) =>
        if !th.Popping? then s
        else Put(s, t, if th.rows.Some? then Returned(th.key, th.top, Take(th.rows.value, th.top))
            else Raised(th.key)).(
             inflight := s.inflight - {th.key})
      case Wake(t) =>
        if !(th.Waiting? && th.ev in s.done) then s else Put(s, t, Rereading(th.key, th.top))
      case Timeout(t) =>
        if !th.Waiting? then s else Put(s, t, Rereading(th.key, th.top))
      case Reread(t) =>
        if !th.Rereading? then s
        else Put(s, t, Returned(th.key, th.top, if th.key in s.cache then Take(s.cache[th.key], th.top) else []))
  }

  /** The state after an interleaving of n threads. */
  function Exec(n: nat, actions: seq<Action>): (s: State)
    ensures |s.threads| == n
  {
    if actions == [] then Init(n)
    else Next(Exec(n, actions[..|actions| - 1]), actions[|actions| - 1])
  }

  predicate Owner(th: Thread) {
    th.Computing? || th.Leaving? || th.Popping?
  }

  /** Rows that some owner stored for this key, cut to what the caller asked for. */
  ghost predicate Stored(s: State, key: Key, top: nat, rows: seq<Row>) {
    exists r :: (key, r) in s.stored && rows == Take(r, top)
  }

  // ----- The invariant -----

  ghost predicate ThreadOk(s: State, t: nat)
    requires t < |s.threads|
  {
    var th := s.threads[t];
    && (Owner(th) ==>
         th.key in s.inflight && s.inflight[th.key] == Flight(th.ev, t) && (th.Popping? <==> th.ev in s.done))
    && ((th.Leaving? || th.Popping?) && th.rows.Some? ==> (th.key, th.rows.value) in s.stored)
    && (th.Waiting? ==>
         th.ev < s.created && (th.ev in s.done || (th.key in s.inflight && s.inflight[th.key].ev == th.ev)))
    && (th.Returned? ==> th.answer == [] || Stored(s, th.key, th.top, th.answer))
  }

  ghost predicate FlightOk(s: State, key: Key)
    requires key in s.inflight
  {
    var f := s.inflight[key];
    && f.ev < s.created && f.owner < |s.threads|
    && Owner(s.threads[f.owner]) && s.threads[f.owner].key == key && s.threads[f.owner].ev == f.ev
  }

  ghost predicate Inv(s: State) {
    && (forall t :: 0 <= t < |s.threads| ==> ThreadOk(s, t))
    && (forall k :: k in s.inflight ==> FlightOk(s, k))
    && (forall e :: e in s.done ==> e < s.created)
    && (forall j, k :: j in s.inflight && k in s.inflight && s.inflight[j].ev == s.inflight[k].ev ==> j == k)
    && (forall k :: k in s.cache ==> (k, s.cache[k]) in s.stored)
  }

  /** Steps that move one thread that owns nothing and change nothing else. */
  lemma {:induction false} MoveKeepsInv(s: State, t: nat, th: Thread)
    requires Inv(s) && t < |s.threads| && !Owner(s.threads[t]) && !Owner(th)
    requires ThreadOk(Put(s, t, th), t)
    ensures Inv(Put(s, t, th))
  {
    var s' := Put(s, t, th);
    forall u | 0 <= u < |s'.threads| ensures ThreadOk(s', u) { assert ThreadOk(s, u); }
    forall k | k in s'.inflight ensures FlightOk(s', k) { assert FlightOk(s, k); }
  }

  lemma {:induction false} RegisterKeepsInv(s: State, t: nat)
    requires Inv(s) && t < |s.threads| && s.threads[t].Missed?
    ensures Inv(Next(s, Register(t)))
  {
    var s' := Next(s, Register(t));
    var key := s.threads[t].key;
    if key in s.inflight {
      assert FlightOk(s, key);
      MoveKeepsInv(s, t, Waiting(key, s.threads[t].top, s.inflight[key].ev));
    } else {
      forall u | 0 <= u < |s'.threads| ensures ThreadOk(s', u) { assert ThreadOk(s, u); }
      forall k | k in s'.inflight ensures FlightOk(s', k) {
        if k != key { assert FlightOk(s, k); }
      }
      forall j, k | j in s'.inflight && k in s'.inflight && s'.inflight[j].ev == s'.inflight[k].ev ensures j == k {
        if j != key { assert FlightOk(s, j); }
        if k != key { assert FlightOk(s, k); }
      }
    }
  }

  lemma {:induction false} ComputedKeepsInv(s: State, a: Action)
    requires Inv(s) && (a.Store? || a.Fail?) && a.t < |s.threads| && s.threads[a.t].Computing?
    ensures Inv(Next(s, a))
  {
    var s' := Next(s, a);
    assert ThreadOk(s, a.t);
    forall u | 0 <= u < |s'.threads| ensures ThreadOk(s', u) { assert ThreadOk(s, u); }
    forall k | k in s'.inflight ensures FlightOk(s', k) { assert FlightOk(s, k); }
  }

  lemma {:induction false} SetEventKeepsInv(s: State, t: nat)
    requires Inv(s) && t < |s.threads| && s.threads[t].Leaving?
    ensures Inv(Next(s, SetEvent(t)))
  {
    var s' := Next(s, SetEvent(t));
    assert ThreadOk(s, t) && FlightOk(s, s.threads[t].key);
    forall u | 0 <= u < |s'.threads| ensures ThreadOk(s', u) {
      assert ThreadOk(s, u);
      if u != t && Owner(s.threads[u]) { assert FlightOk(s, s.threads[u].key); }
    }
    forall k | k in s'.inflight ensures FlightOk(s', k) { assert FlightOk(s, k); }
  }

  lemma {:induction false} PopKeepsInv(s: State, t: nat)
    requires Inv(s) && t < |s.threads| && s.threads[t].Popping?
    ensures Inv(Next(s, Pop(t)))
  {
    var s' := Next(s, Pop(t));
    assert ThreadOk(s, t);
    forall u | 0 <= u < |s'.threads| ensures ThreadOk(s', u) {
      assert ThreadOk(s, u);
      if u != t && Owner(s.threads[u]) { assert FlightOk(s, s.threads[u].key); }
    }
    forall k | k in s'.inflight ensures FlightOk(s', k) { assert FlightOk(s, k); }
  }

  lemma {:induction false} DropKeepsInv(s: State, key: Key)
    requires Inv(s)
    ensures Inv(Next(s, Drop(key)))
  {
    var s' := Next(s, Drop(key));
    forall u | 0 <= u < |s'.threads| ensures ThreadOk(s', u) { assert ThreadOk(s, u); }
    forall k | k in s'.inflight ensures FlightOk(s', k) { assert FlightOk(s, k); }
  }

  lemma {:induction false} BeginKeepsInv(s: State, t: nat, pool: seq<string>, top: nat)
    requires Inv(s) && t < |s.threads| && Next(s, Begin(t, pool, top)) != s
    ensures Inv(Next(s, Begin(t, pool, top)))
  {
    MoveKeepsInv(s, t, Next(s, Begin(t, pool, top)).threads[t]);
  }

  lemma {:induction false} WaiterKeepsInv(s: State, a: Action)
    requires Inv(s) && (a.Wake? || a.Timeout? || a.Reread?) && a.t < |s.threads| && Next(s, a) != s
    ensures Inv(Next(s, a))
  {
    MoveKeepsInv(s, a.t, Next(s, a).threads[a.t]);
  }

  lemma {:induction false} NextKeepsInv(s: State, a: Action)
    requires Inv(s)
    ensures Inv(Next(s, a))
  {
    if Next(s, a) != s {
      match a
      case Drop(key) => DropKeepsInv(s, key);
      case Register(t) => RegisterKeepsInv(s, t);
      case Store(t, rows) => ComputedKeepsInv(s, a);
      case Fail(t) => ComputedKeepsInv(s, a);
      case SetEvent(t) => SetEventKeepsInv(s, t);
      case Pop(t) => PopKeepsInv(s, t);
      case Begin(t, pool, top) => BeginKeepsInv(s, t, pool, top);
      case Wake(t) => WaiterKeepsInv(s, a);
      case Timeout(t) => WaiterKeepsInv(s, a);
      case Reread(t) => WaiterKeepsInv(s, a);
    }
  }

  lemma {:induction false} EveryInterleavingKeepsInv(n: nat, actions: seq<Action>)
    ensures Inv(Exec(n, actions))
  {
    if actions != [] {
      EveryInterleavingKeepsInv(n, actions[..|actions| - 1]);
      NextKeepsInv(Exec(n, actions[..|actions| - 1]), actions[|actions| - 1]);
    }
  }

  // ----- What every interleaving of any number of threads guarantees -----

  /** At most one thread computes, or has yet to clean up, for a key. */
  lemma OneOwnerPerKey(n: nat, actions: seq<Action>, t: nat, u: nat)
    requires t < n && u < n
    requires var ts := Exec(n, actions).threads; Owner(ts[t]) && Owner(ts[u]) && ts[t].key == ts[u].key
    ensures t == u
  {
    EveryInterleavingKeepsInv(n, actions);
    assert ThreadOk(Exec(n, actions), t) && ThreadOk(Exec(n, actions), u);
  }

  /** A key is registered exactly while some thread is between its registration and its own pop,
      and then it holds that thread's event. */
  lemma RegisteredExactlyWhileOwned(n: nat, actions: seq<Action>, key: Key)
    ensures var s := Exec(n, actions);
            key in s.inflight <==> exists t :: 0 <= t < |s.threads| && Owner(s.threads[t]) && s.threads[t].key == key
    ensures var s := Exec(n, actions);
            forall t :: 0 <= t < |s.threads| && Owner(s.threads[t]) && s.threads[t].key == key ==>
              key in s.inflight && s.inflight[key].ev == s.threads[t].ev
  {
    EveryInterleavingKeepsInv(n, actions);
    var s := Exec(n, actions);
    if key in s.inflight { assert FlightOk(s, key); }
    forall t | 0 <= t < |s.threads| && Owner(s.threads[t]) && s.threads[t].key == key
      ensures key in s.inflight && s.inflight[key].ev == s.threads[t].ev
    {
      assert ThreadOk(s, t);
    }
  }

  /** No waiter waits on an unset event unless a thread that will set it is still on its way. */
  lemma NoOrphanWaiter(n: nat, actions: seq<Action>, t: nat)
    requires var s := Exec(n, actions); t < |s.threads| && s.threads[t].Waiting? && s.threads[t].ev !in s.done
    ensures var s := Exec(n, actions);
            exists u :: 0 <= u < |s.threads| && (s.threads[u].Computing? || s.threads[u].Leaving?)
                        && s.threads[u].key == s.threads[t].key && s.threads[u].ev == s.threads[t].ev
  {
    EveryInterleavingKeepsInv(n, actions);
    var s := Exec(n, actions);
    assert ThreadOk(s, t);
    var f := s.inflight[s.threads[t].key];
    assert FlightOk(s, s.threads[t].key) && ThreadOk(s, f.owner);
  }

  /** Whatever a call returns is empty or was stored by an owner of the same key. */
  lemma AnswersWereStored(n: nat, actions: seq<Action>, t: nat)
    requires var s := Exec(n, actions); t < |s.threads| && s.threads[t].Returned?
    ensures var s := Exec(n, actions);
            s.threads[t].answer == [] || Stored(s, s.threads[t].key, s.threads[t].top, s.threads[t].answer)
  {
    EveryInterleavingKeepsInv(n, actions);
    assert ThreadOk(Exec(n, actions), t);
  }

  // ----- Which pools share an answer -----

  /** Two pools get one key exactly when they hold the same symbols, each equally often. */
  lemma {:induction false} KeysAreEqualExactly(p: seq<string>, q: seq<string>)
    ensures PoolKey(p) == PoolKey(q) <==> multiset(p) == multiset(q)
  {
  }

  /** The request that thread t serves, or served last: its last beginning that was not refused
      because the thread was still busy. */
  ghost function Request(n: nat, actions: seq<Action>, t: nat): Option<Action>
    requires t < n
  {
    if actions == [] then None
    else
      var before, a := actions[..|actions| - 1], actions[|actions| - 1];
      if a.Begin? && a.t == t && Free(Exec(n, before).threads[t]) then Some(a) else Request(n, before, t)
  }

  predicate Free(th: Thread) { th.Idle? || th.Returned? || th.Raised? }

  /** A thread carries the key and the number of rows of its request. */
  lemma {:induction false} ThreadServesRequest(n: nat, actions: seq<Action>, t: nat)
    requires t < n && !Exec(n, actions).threads[t].Idle?
    ensures var th, r := Exec(n, actions).threads[t], Request(n, actions, t);
            r.Some? && r.value.Begin? && th.key == PoolKey(r.value.pool) && (!th.Raised? ==> th.top == r.value.top)
  {
    var before, a := actions[..|actions| - 1], actions[|actions| - 1];
    var s := Exec(n, before);
    if a.Drop? || a.t != t {
      OtherStep(s, a, t);
      ThreadServesRequest(n, before, t);
    } else if !(a.Begin? && Free(s.threads[t])) {
      OwnStep(s, a);
      ThreadServesRequest(n, before, t);
    }
  }

  lemma {:induction false} OwnStep(s: State, a: Action)
    requires !a.Drop? && a.t < |s.threads| && !(a.Begin? && Free(s.threads[a.t]))
    ensures var before, after := s.threads[a.t], Next(s, a).threads[a.t];
            && (before.Idle? <==> after.Idle?)
            && (!before.Idle? ==> after.key == before.key)
            && (!before.Idle? && !after.Raised? ==> !before.Raised? && after.top == before.top)
  {
  }

  /** Action i stores these rows: thread `actions[i].t` has computed them for its request. */
  ghost predicate StoresAt(n: nat, actions: seq<Action>, i: nat, rows: seq<Row>)
    requires i < |actions|
  {
    && actions[i].Store? && actions[i].rows == rows && actions[i].t < n
    && Exec(n, actions[..i]).threads[actions[i].t].Computing?
  }

  lemma {:induction false} EarlierStore(n: nat, actions: seq<Action>, m: nat, i: nat, rows: seq<Row>)
    requires i < m <= |actions| && StoresAt(n, actions[..m], i, rows)
    ensures StoresAt(n, actions, i, rows) && actions[..m][i] == actions[i] && actions[..m][..i] == actions[..i]
  {
    assert actions[..m][..i] == actions[..i];
  }

  /** Whatever is recorded as stored was stored by some action, for a request of that key. */
  lemma {:induction false} StoredByAction(n: nat, actions: seq<Action>, key: Key, rows: seq<Row>) returns (i: nat)
    requires (key, rows) in Exec(n, actions).stored
    ensures i < |actions| && StoresAt(n, actions, i, rows)
    ensures Exec(n, actions[..i]).threads[actions[i].t].key == key
  {
    var m := |actions| - 1;
    var before, a := actions[..m], actions[m];
    if (key, rows) in Exec(n, before).stored {
      i := StoredByAction(n, before, key, rows);
      EarlierStore(n, actions, m, i, rows);
    } else {
      i := m;
    }
  }

  /** Over every interleaving: a non-empty answer is the beginning of rows, as many as were asked
      for, that some thread stored for a pool of the same symbols. */
  lemma AnswersAreForTheSamePool(n: nat, actions: seq<Action>, t: nat) returns (i: nat)
    requires t < n && Exec(n, actions).threads[t].Returned? && Exec(n, actions).threads[t].answer != []
    ensures i < |actions| && actions[i].Store? && actions[i].t < n
    ensures Exec(n, actions[..i]).threads[actions[i].t].Computing?
    ensures var mine, theirs := Request(n, actions, t), Request(n, actions[..i], actions[i].t);
            var answer := Exec(n, actions).threads[t].answer;
            && mine.Some? && mine.value.Begin? && theirs.Some? && theirs.value.Begin?
            && multiset(mine.value.pool) == multiset(theirs.value.pool)
            && answer <= actions[i].rows
            && |answer| == (if |actions[i].rows| <= mine.value.top then |actions[i].rows| else mine.value.top)
  {
    var s := Exec(n, actions);
    var th := s.threads[t];
    AnswersWereStored(n, actions, t);
    var rows :| (th.key, rows) in s.stored && th.answer == Take(rows, th.top);
    i := StoredByAction(n, actions, th.key, rows);
    ThreadServesRequest(n, actions, t);
    ThreadServesRequest(n, actions[..i], actions[i].t);
    KeysAreEqualExactly(Request(n, actions, t).value.pool, Request(n, actions[..i], actions[i].t).value.pool);
  }

  lemma {:induction false} ExecLast(n: nat, actions: seq<Action>, a: Action)
    ensures Exec(n, actions + [a]) == Next(Exec(n, actions), a)
  {
    assert (actions + [a])[..|actions|] == actions;
  }

  lemma {:induction false} OtherStep(s: State, a: Action, t: nat)
    requires t < |s.threads| && (a.Drop? || a.t != t)
    ensures Next(s, a).threads[t] == s.threads[t]
  {
  }

  lemma {:induction false} OutcomeStep(s: State, a: Action)
    requires (a.Store? || a.Fail?) && a.t < |s.threads| && s.threads[a.t].Computing?
    ensures var th := s.threads[a.t];
            Next(s, a).threads[a.t] == Leaving(th.key, th.top, th.ev, if a.Store? then Some(a.rows) else None)
  {
  }

  lemma {:induction false} SetStep(s: State, t: nat)
    requires t < |s.threads| && s.threads[t].Leaving?
    ensures var th := s.threads[t];
            Next(s, SetEvent(t)).threads[t] == Popping(th.key, th.top, th.ev, th.rows)
  {
  }

  lemma {:induction false} PopStep(s: State, t: nat)
    requires t < |s.threads| && s.threads[t].Popping?
    ensures var th, s' := s.threads[t], Next(s, Pop(t));
            && th.key !in s'.inflight && s'.done == s.done
            && s'.threads[t] == if th.rows.Some? then Returned(th.key, th.top, Take(th.rows.value, th.top))
                 else Raised(th.key)
  {
  }

  lemma {:induction false} WakeStep(s: State, u: nat)
    requires u < |s.threads| && s.threads[u].Waiting? && s.threads[u].ev in s.done
    ensures Next(s, Wake(u)).threads[u].Rereading?
  {
  }

  /** No action of the list is a step of thread t. */
  ghost predicate Foreign(actions: seq<Action>, t: nat) {
    actions == [] || (Foreign(actions[..|actions| - 1], t)
        && (actions[|actions| - 1].Drop? || actions[|actions| - 1].t != t))
  }

  lemma {:induction false} OthersLeaveThread(n: nat, actions: seq<Action>, others: seq<Action>, t: nat)
    requires t < n && Foreign(others, t)
    ensures Exec(n, actions + others).threads[t] == Exec(n, actions).threads[t]
  {
    if others == [] {
      assert actions + others == actions;
    } else {
      var earlier := others[..|others| - 1];
      OthersLeaveThread(n, actions, earlier, t);
      assert actions + others == actions + earlier + [others[|others| - 1]];
      ExecLast(n, actions + earlier, others[|others| - 1]);
      OtherStep(Exec(n, actions + earlier), others[|others| - 1], t);
    }
  }

  /** A step of thread t, after any actions of the others. */
  lemma {:induction false} StepAfterOthers(n: nat, actions: seq<Action>, others: seq<Action>, a: Action, t: nat)
    requires t < n && Foreign(others, t) && !a.Drop? && a.t == t
    ensures Exec(n, actions + others + [a]) == Next(Exec(n, actions + others), a)
    ensures Exec(n, actions + others).threads[t] == Exec(n, actions).threads[t]
  {
    ExecLast(n, actions + others, a);
    OthersLeaveThread(n, actions, others, t);
  }

  /** An owner's way from its outcome to its pop, with any actions of the others before each step. */
  lemma {:induction false} OwnerReleases(n: nat, actions: seq<Action>, t: nat, outcome: Action,
      o0: seq<Action>, o1: seq<Action>, o2: seq<Action>)
    requires t < n && Exec(n, actions).threads[t].Computing?
    requires (outcome.Store? || outcome.Fail?) && outcome.t == t
    requires Foreign(o0, t) && Foreign(o1, t) && Foreign(o2, t)
    ensures var th := Exec(n, actions).threads[t];
            var s' := Exec(n, actions + o0 + [outcome] + o1 + [SetEvent(t)] + o2 + [Pop(t)]);
            && th.key !in s'.inflight && th.ev in s'.done
            && s'.threads[t] == if outcome.Fail? then Raised(th.key)
                 else Returned(th.key, th.top, Take(outcome.rows, th.top))
  {
    var a0 := actions + o0 + [outcome];
    var a1 := a0 + o1 + [SetEvent(t)];
    StepAfterOthers(n, actions, o0, outcome, t);
    OutcomeStep(Exec(n, actions + o0), outcome);
    StepAfterOthers(n, a0, o1, SetEvent(t), t);
    SetStep(Exec(n, a0 + o1), t);
    StepAfterOthers(n, a1, o2, Pop(t), t);
    EventStaysSet(n, a1, o2, t);
    PopStep(Exec(n, a1 + o2), t);
  }

  /** Nothing that the other threads and the cache do disables the next step of an owner: from every
      reachable state it goes from its outcome, rows or an exception, to its pop, whatever happens in
      between. Then its event is set, its key is free, and whoever still waits for it can wake. */
  lemma OwnersAlwaysRelease(n: nat, actions: seq<Action>, t: nat, outcome: Action,
      o0: seq<Action>, o1: seq<Action>, o2: seq<Action>)
    requires t < n && Exec(n, actions).threads[t].Computing?
    requires (outcome.Store? || outcome.Fail?) && outcome.t == t
    requires Foreign(o0, t) && Foreign(o1, t) && Foreign(o2, t)
    ensures var th := Exec(n, actions).threads[t];
            var s' := Exec(n, actions + o0 + [outcome] + o1 + [SetEvent(t)] + o2 + [Pop(t)]);
            && th.key !in s'.inflight && th.ev in s'.done
            && s'.threads[t] == (if outcome.Fail? then Raised(th.key)
                 else Returned(th.key, th.top, Take(outcome.rows, th.top)))
            && forall u :: 0 <= u < n && s'.threads[u].Waiting? && s'.threads[u].ev == th.ev ==>
                 Next(s', Wake(u)).threads[u].Rereading?
  {
    OwnerReleases(n, actions, t, outcome, o0, o1, o2);
    WaitersCanWake(Exec(n, actions + o0 + [outcome] + o1 + [SetEvent(t)] + o2 + [Pop(t)]),
        Exec(n, actions).threads[t].ev);
  }

  lemma {:induction false} WaitersCanWake(s: State, ev: Event)
    requires ev in s.done
    ensures forall u :: 0 <= u < |s.threads| && s.threads[u].Waiting? && s.threads[u].ev == ev ==>
              Next(s, Wake(u)).threads[u].Rereading?
  {
    forall u | 0 <= u < |s.threads| && s.threads[u].Waiting? && s.threads[u].ev == ev
      ensures Next(s, Wake(u)).threads[u].Rereading? {
      WakeStep(s, u);
    }
  }

  /** The event of a thread that has yet to pop is set, as long as it has yet to pop. */
  lemma {:induction false} EventStaysSet(n: nat, actions: seq<Action>, others: seq<Action>, t: nat)
    requires t < n && Foreign(others, t) && Exec(n, actions).threads[t].Popping?
    ensures Exec(n, actions).threads[t].ev in Exec(n, actions + others).done
  {
    EveryInterleavingKeepsInv(n, actions + others);
    OthersLeaveThread(n, actions, others, t);
    assert ThreadOk(Exec(n, actions + others), t);
  }

  // ----- Runs without failures, timeouts and lost entries -----

  ghost predicate Clean(actions: seq<Action>) {
    forall a :: a in actions ==> !a.Fail? && !a.Timeout? && !a.Drop?
  }

  ghost predicate CleanOk(s: State) {
    && (forall t :: 0 <= t < |s.threads| ==> CleanThread(s, t))
    && (forall k :: k in s.inflight && s.inflight[k].ev in s.done ==> k in s.cache)
  }

  /** In a clean run a set event means that the rows are in the cache. */
  ghost predicate CleanThread(s: State, t: nat)
    requires t < |s.threads|
  {
    var th := s.threads[t];
    && (th.Leaving? || th.Popping? ==> th.rows.Some? && th.key in s.cache)
    && (th.Waiting? && th.ev in s.done ==> th.key in s.cache)
    && (th.Rereading? ==> th.key in s.cache)
    && !th.Raised?
    && (th.Returned? && th.key.symbols != multiset{} ==> Stored(s, th.key, th.top, th.answer))
  }

  /** A clean step on a thread's own place leaves the other threads clean. */
  lemma {:induction false} CleanElsewhere(s: State, a: Action, t: nat)
    requires Inv(s) && CleanOk(s) && !a.Fail? && !a.Timeout? && !a.Drop?
    requires a.t < |s.threads| && t < |s.threads| && t != a.t
    ensures CleanThread(Next(s, a), t)
  {
    assert ThreadOk(s, a.t) && CleanThread(s, a.t) && ThreadOk(s, t) && CleanThread(s, t);
    if a.SetEvent? && s.threads[a.t].Leaving? { assert FlightOk(s, s.threads[a.t].key); }
  }

  lemma {:induction false} CleanHere(s: State, a: Action)
    requires Inv(s) && CleanOk(s) && !a.Fail? && !a.Timeout? && !a.Drop?
    requires a.t < |s.threads|
    ensures CleanThread(Next(s, a), a.t)
  {
    assert ThreadOk(s, a.t) && CleanThread(s, a.t);
    if a.Begin? && a.pool != [] { assert a.pool[0] in PoolKey(a.pool).symbols; }
  }

  lemma {:induction false} CleanSetEvent(s: State, t: nat, k: Key)
    requires Inv(s) && CleanOk(s) && t < |s.threads| && s.threads[t].Leaving?
    requires k in s.inflight && s.inflight[k].ev in s.done + {s.threads[t].ev}
    ensures k in s.cache
  {
    var th := s.threads[t];
    assert ThreadOk(s, t) && CleanThread(s, t);
    if s.inflight[k].ev == th.ev { assert k == th.key; }
  }

  lemma {:induction false} CleanRegister(s: State, t: nat, k: Key)
    requires Inv(s) && CleanOk(s) && t < |s.threads| && s.threads[t].Missed?
    requires k in Next(s, Register(t)).inflight && Next(s, Register(t)).inflight[k].ev in s.done
    ensures k in s.cache
  {
    if k in s.inflight { assert FlightOk(s, k); }
  }

  lemma {:induction false} OtherActionsKeepFlights(s: State, a: Action)
    requires !a.Drop? && !a.SetEvent? && !a.Register?
    ensures Next(s, a).done == s.done
    ensures forall k :: k in Next(s, a).inflight ==> k in s.inflight && Next(s, a).inflight[k] == s.inflight[k]
    ensures forall k :: k in s.cache ==> k in Next(s, a).cache
  {
  }

  lemma {:induction false} CleanFlights(s: State, a: Action, k: Key)
    requires Inv(s) && CleanOk(s) && !a.Fail? && !a.Timeout? && !a.Drop?
    requires a.t < |s.threads| && k in Next(s, a).inflight && Next(s, a).inflight[k].ev in Next(s, a).done
    ensures k in Next(s, a).cache
  {
    if a.SetEvent? {
      if s.threads[a.t].Leaving? { CleanSetEvent(s, a.t, k); }
    } else if a.Register? {
      if s.threads[a.t].Missed? { CleanRegister(s, a.t, k); }
    } else {
      OtherActionsKeepFlights(s, a);
    }
  }

  lemma {:induction false} NextKeepsClean(s: State, a: Action)
    requires Inv(s) && CleanOk(s) && !a.Fail? && !a.Timeout? && !a.Drop?
    ensures CleanOk(Next(s, a))
  {
    if a.t < |s.threads| {
      forall t | 0 <= t < |s.threads| ensures CleanThread(Next(s, a), t) {
        if t == a.t { CleanHere(s, a); } else { CleanElsewhere(s, a, t); }
      }
      forall k | k in Next(s, a).inflight && Next(s, a).inflight[k].ev in Next(s, a).done
          ensures k in Next(s, a).cache {
        CleanFlights(s, a, k);
      }
    }
  }

  /** When no computation fails, nobody times out and the cache loses nothing, every call on a
      non-empty pool returns rows that an owner stored: no waiter comes back empty-handed. */
  lemma {:induction false} CleanRunsServeEveryone(n: nat, actions: seq<Action>)
    requires Clean(actions)
    ensures CleanOk(Exec(n, actions))
  {
    if actions != [] {
      var before := actions[..|actions| - 1];
      CleanRunsServeEveryone(n, before);
      EveryInterleavingKeepsInv(n, before);
      NextKeepsClean(Exec(n, before), actions[|actions| - 1]);
    }
  }

  // ----- When a flight repeats -----

  /** A store of the key came after thread u missed it, and the cache has not dropped it since. */
  function StoredSinceMiss(n: nat, actions: seq<Action>, u: nat, key: Key): bool
    requires u < n
  {
    if actions == [] then false
    else
      var before, a := actions[..|actions| - 1], actions[|actions| - 1];
      var s := Exec(n, before);
      if !s.threads[u].Missed? then false
      else if a == Drop(key) then false
      else if Stores(s, a, key) then true
      else StoredSinceMiss(n, before, u, key)
  }

  predicate Stores(s: State, a: Action, key: Key) {
    a.Store? && a.t < |s.threads| && s.threads[a.t].Computing? && s.threads[a.t].key == key
  }

  lemma {:induction false} StepWhileMissed(s: State, a: Action, u: nat)
    requires u < |s.threads| && s.threads[u].Missed? && Next(s, a).threads[u].Missed?
    ensures Next(s, a).threads[u] == s.threads[u]
    ensures var key := s.threads[u].key;
            key in Next(s, a).cache <==> a != Drop(key) && (Stores(s, a, key) || key in s.cache)
  {
  }

  lemma {:induction false} StepToMissed(s: State, a: Action, u: nat)
    requires u < |s.threads| && !s.threads[u].Missed? && Next(s, a).threads[u].Missed?
    ensures Next(s, a).threads[u].key !in Next(s, a).cache
  {
  }

  /** What a thread that missed would find now: the cache holds its key if and only if an owner
      stored it after the miss and nothing dropped it since. */
  lemma {:induction false} CachedSinceMissExactly(n: nat, actions: seq<Action>, u: nat)
    requires u < n && Exec(n, actions).threads[u].Missed?
    ensures var s := Exec(n, actions);
            s.threads[u].key in s.cache <==> StoredSinceMiss(n, actions, u, s.threads[u].key)
  {
    if actions != [] {
      var before, a := actions[..|actions| - 1], actions[|actions| - 1];
      if Exec(n, before).threads[u].Missed? {
        CachedSinceMissExactly(n, before, u);
        StepWhileMissed(Exec(n, before), a, u);
      } else {
        StepToMissed(Exec(n, before), a, u);
      }
    }
  }

  /** Single flight bounds concurrency, not repetition. Over every interleaving, a thread that
      registers computes rows that the cache holds if and only if they were stored after its miss
      and not dropped since, and no other flight of the key is registered. */
  lemma RecomputesExactly(n: nat, actions: seq<Action>, u: nat)
    requires u < n && Exec(n, actions).threads[u].Missed?
    ensures var s, s' := Exec(n, actions), Exec(n, actions + [Register(u)]);
            var key := s.threads[u].key;
            s'.threads[u].Computing? && key in s'.cache <==> StoredSinceMiss(n, actions, u, key) && key !in s.inflight
  {
    ExecLast(n, actions, Register(u));
    CachedSinceMissExactly(n, actions, u);
  }

  /** It happens: whenever a thread missed the cache before the rows were stored and registers after
      the pop, it computes them again although the cache holds them. */
  lemma {:induction false} SecondFlightAfterStore(n: nat, actions: seq<Action>, t: nat, u: nat, rows: seq<Row>)
    requires t < n && u < n && t != u
    requires var s := Exec(n, actions);
             s.threads[t].Computing? && s.threads[u].Missed? && s.threads[u].key == s.threads[t].key
    ensures var s' := Exec(n, actions + [Store(t, rows)] + [SetEvent(t)] + [Pop(t)] + [Register(u)]);
            s'.threads[u].Computing? && s'.threads[u].key in s'.cache
  {
    ExecLast(n, actions, Store(t, rows));
    ExecLast(n, actions + [Store(t, rows)], SetEvent(t));
    ExecLast(n, actions + [Store(t, rows)] + [SetEvent(t)], Pop(t));
    ExecLast(n, actions + [Store(t, rows)] + [SetEvent(t)] + [Pop(t)], Register(u));
  }

  /** Such a state is reached by two threads that ask for the same pool at the same time. */
  lemma {:induction false} TwoMissesBeforeOneFlight(pool: seq<string>, top: nat)
    requires pool != []
    ensures var s := Exec(2, [] + [Begin(0, pool, top)] + [Begin(1, pool, top)] + [Register(0)]);
            s.threads[0].Computing? && s.threads[1].Missed? && s.threads[1].key == s.threads[0].key
  {
    ExecLast(2, [], Begin(0, pool, top));
    ExecLast(2, [] + [Begin(0, pool, top)], Begin(1, pool, top));
    ExecLast(2, [] + [Begin(0, pool, top)] + [Begin(1, pool, top)], Register(0));
  }
}
