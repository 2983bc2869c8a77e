/** Pages of one query: the cache, the sort, and joining pages. */
module Pagination {
  import opened Options
  import opened BrowserTables
  import opened BrowserRows
  import opened Slices
  import opened StableSort
  import Strings

  /** A sort is by one column, in one direction. */
  datatype Order = Order(column: Column, desc: bool)

  datatype Query = Query(universe: string, asOf: int, dates: seq<int>, indicators: seq<(string, string)>,
    unified: Option<int>)

  /** What is asked, apart from the page: the universe, the dates and the indicators are the query. */
  datatype Request = Request(query: Query, sort: Option<Order>, skip: nat, limit: nat, forceRefresh: bool)

  /** The cache key: everything but the page and the refresh flag, and the user. Its digest is taken
      to be injective. */
  datatype CacheKey = CacheKey(query: Query, sort: Option<Order>, user: Option<int>)

  function KeyOf(request: Request, user: Option<int>): CacheKey {
    CacheKey(request.query, request.sort, user)
  }

  /** Requests share an entry exactly when they ask for the same query in the same order for the
      same user: the page and the refresh flag do not matter, everything else does. */
  lemma {:induction false} KeysAreSharedExactly(r: Request, u: Option<int>, q: Request, v: Option<int>)
    ensures KeyOf(r, u) == KeyOf(q, v) <==> r.query == q.query && r.sort == q.sort && u == v
  {
  }

  // ----- Sorting -----

  function SortKey(column: Column): Row -> Key {
    (row: Row) =>
      if column !in row then Key.Null
      else match row[column] case Null => Key.Null case Num(x) => Number(x) case Text(s, _) => Key.Text(s)
  }

  /** Numbers and text do not compare; a column that holds both cannot be sorted. */
  predicate Mixed(rows: seq<Row>, column: Column) {
    && (exists r :: r in rows && SortKey(column)(r).Number?)
    && (exists r :: r in rows && SortKey(column)(r).Text?)
  }

  function Ordered(rows: seq<Row>, sort: Option<Order>): seq<Row> {
    if sort.None? then rows else Sort(rows, SortKey(sort.value.column), sort.value.desc)
  }

  /** Sorting neither loses nor repeats rows, keeps rows with equal values in their order in both
      directions, and puts missing values last ascending and first descending. */
  lemma OrderedIsStablePermutation(rows: seq<Row>, order: Order, i: nat, j: nat, k: Key)
    ensures var items, key := Ordered(rows, Some(order)), SortKey(order.column);
            && multiset(items) == multiset(rows) && |items| == |rows|
            && WithKey(items, key, k) == WithKey(rows, key, k)
            && (i < j < |items| ==>
                  && !Precedes(key(items[j]), key(items[i]), order.desc)
                  && (order.desc && key(items[j]) == Key.Null ==> key(items[i]) == Key.Null)
                  && (!order.desc && key(items[i]) == Key.Null ==> key(items[j]) == Key.Null))
  {
    var key := SortKey(order.column);
    SortPermutes(rows, key, order.desc);
    SortSorts(rows, key, order.desc);
    SortIsStable(rows, key, order.desc, k);
    if i < j < |rows| { NullsAtTheEnd(rows, key, order.desc, i, j); }
  }

  /** A cell of a row; a missing one is null. */
  function CellOf(row: Row, column: Column): Value { if column in row then row[column] else Value.Null }

  /** In the order that was asked for: numbers by size, texts by code point. */
  lemma OrderedByValue(rows: seq<Row>, order: Order, i: nat, j: nat)
    requires i < j < |Ordered(rows, Some(order))|
    ensures var items := Ordered(rows, Some(order));
            var a, b := CellOf(items[i], order.column), CellOf(items[j], order.column);
            && (a.Num? && b.Num? ==> if order.desc then b.x <= a.x else a.x <= b.x)
            && (a.Text? && b.Text? ==> if order.desc then !Strings.Less(a.s, b.s) else !Strings.Less(b.s, a.s))
  {
    SortSorts(rows, SortKey(order.column), order.desc);
  }

  /** A column cannot be sorted exactly when one row holds a number in it and another one a text. */
  lemma {:induction false} MixedExactly(rows: seq<Row>, column: Column)
    ensures Mixed(rows, column) <==>
            && (exists r :: r in rows && CellOf(r, column).Num?)
            && exists r :: r in rows && CellOf(r, column).Text?
  {
    forall r ensures SortKey(column)(r).Number? <==> CellOf(r, column).Num? {}
    forall r ensures SortKey(column)(r).Text? <==> CellOf(r, column).Text? {}
  }

  // ----- Pages -----

  /** A whole result, and one page of it. */
  datatype Full = Full(items: seq<Row>, total: nat, columns: seq<Column>)

  datatype Response = Page(items: seq<Row>, total: nat, page: nat, size: nat, columns: seq<Column>,
    cacheHit: bool) | TypeError

  /** A slice whose ends may lie beyond the end. */
  function Slice<T>(s: seq<T>, skip: nat, limit: nat): seq<T> {
    s[Upto(skip, |s|)..Upto(skip + limit, |s|)]
  }

  function PageOf(full: Full, skip: nat, limit: nat, hit: bool): Response {
    Page(Slice(full.items, skip, limit), full.total, if limit != 0 then skip / limit + 1 else 1, limit,
        full.columns, hit)
  }

  /** A page holds the items from `skip` on, at most `limit` of them, and is numbered from one. */
  lemma {:induction false} PageIsCut(full: Full, skip: nat, limit: nat, hit: bool)
    ensures var page := PageOf(full, skip, limit, hit);
            && page.Page? && page.total == full.total && page.columns == full.columns && page.cacheHit == hit
            && page.size == limit && |page.items| <= limit
            && (forall k :: 0 <= k < |page.items| ==>
                 skip + k < |full.items| && page.items[k] == full.items[skip + k])
            && (|page.items| < limit ==> |full.items| <= skip + |page.items|)
            && (if limit == 0 then page.page == 1
                else (page.page - 1) * limit <= skip < (page.page - 1) * limit + limit)
  {
  }

  // ----- The cache and one execution -----

  datatype Entry = Entry(full: Full, expires: int)

  /** One call: when it comes, when its result is stored, and what the database would answer now. */
  datatype Call = Call(request: Request, user: Option<int>, now: int, stored: int, rows: seq<Row>, columns: seq<Column>)

  type Store = map<CacheKey, Entry>

  function Live(store: Store, key: CacheKey, now: int): Option<Full> {
    if key in store && now <= store[key].expires then Some(store[key].full) else None
  }

  /** Looking an entry up drops it when its time is over. */
  function AfterGet(store: Store, key: CacheKey, now: int): Store {
    if key in store && store[key].expires < now then store - {key} else store
  }

  function FullOf(call: Call): Full {
    Full(Ordered(call.rows, call.request.sort), |call.rows|, call.columns)
  }

  predicate Unsortable(call: Call) {
    call.request.sort.Some? && Mixed(call.rows, call.request.sort.value.column)
  }

  /** One call on the cache: its effect and its response. */
  function Step(store: Store, call: Call, ttl: int): (Store, Response) {
    var key, r := KeyOf(call.request, call.user), call.request;
    if !r.forceRefresh && Live(store, key, call.now).Some? then
      (store, PageOf(Live(store, key, call.now).value, r.skip, r.limit, true))
    else
      var left := if r.forceRefresh then store else AfterGet(store, key, call.now);
      if Unsortable(call) then (left, TypeError)
      else (left[key := Entry(FullOf(call), call.stored + ttl)], PageOf(FullOf(call), r.skip, r.limit, false))
  }

  class BrowserQueryCache {
    var memory: Store

    constructor ()
      ensures memory == map[]
    {
      memory := map[];
    }

    method Get(key: CacheKey, now: int) returns (found: Option<Full>)
      modifies this
      ensures found == Live(old(memory), key, now) && memory == AfterGet(old(memory), key, now)
    {
      if key !in memory {
        return None;
      }
      var item := memory[key];
      if item.expires < now {
        memory := memory - {key};
        return None;
      }
      found := Some(item.full);
    }

    method Set(key: CacheKey, value: Full, now: int, ttl: int)
      modifies this
      ensures memory == old(memory)[key := Entry(value, now + ttl)]
    {
      memory := memory[key := Entry(value, now + ttl)];
    }
  }

  method Execute(cache: BrowserQueryCache, call: Call, ttl: int) returns (response: Response)
    modifies cache
    ensures (cache.memory, response) == Step(old(cache.memory), call, ttl)
  {
    var key := KeyOf(call.request, call.user);
    if !call.request.forceRefresh {
      var cached := cache.Get(key, call.now);
      if cached.Some? {
        return PageOf(cached.value, call.request.skip, call.request.limit, true);
      }
    }
    if Unsortable(call) {
      return TypeError;
    }
    var full := FullOf(call);
    cache.Set(key, full, call.stored, ttl);
    response := PageOf(full, call.request.skip, call.request.limit, false);
  }

  // ----- Runs -----

  function After(store: Store, calls: seq<Call>, n: nat, ttl: int): Store
    requires n <= |calls|
  {
    if n == 0 then store else Step(After(store, calls, n - 1, ttl), calls[n - 1], ttl).0
  }

  function ResponseTo(store: Store, calls: seq<Call>, n: nat, ttl: int): Response
    requires n < |calls|
  {
    Step(After(store, calls, n, ttl), calls[n], ttl).1
  }

  predicate For(call: Call, key: CacheKey) { KeyOf(call.request, call.user) == key }

  /** The calls of the key from the i-th to before the n-th come in its lifetime and do not refresh. */
  ghost predicate WithinLifetime(calls: seq<Call>, key: CacheKey, expires: int, i: nat, n: nat)
    requires n <= |calls|
  {
    forall j :: i <= j < n && For(calls[j], key) ==> !calls[j].request.forceRefresh && calls[j].now <= expires
  }

  /** The call runs the query: nothing live is cached for it, or it asks for a refresh. */
  ghost predicate Runs(store: Store, calls: seq<Call>, i: nat, ttl: int)
    requires i < |calls|
  {
    && (calls[i].request.forceRefresh
        || Live(After(store, calls, i, ttl), KeyOf(calls[i].request, calls[i].user), calls[i].now).None?)
    && !Unsortable(calls[i])
  }

  /** A call that finds the entry or is for another key leaves the entry alone. */
  lemma {:induction false} StepKeepsEntry(store: Store, call: Call, ttl: int, key: CacheKey, entry: Entry)
    requires key in store && store[key] == entry
    requires For(call, key) ==> !call.request.forceRefresh && call.now <= entry.expires
    ensures key in Step(store, call, ttl).0 && Step(store, call, ttl).0[key] == entry
  {
  }

  /** While an entry lives, other calls leave it alone. */
  lemma {:induction false} EntryStays(store: Store, calls: seq<Call>, ttl: int, i: nat, n: nat)
    requires i < n <= |calls| && Runs(store, calls, i, ttl)
    requires WithinLifetime(calls, KeyOf(calls[i].request, calls[i].user), calls[i].stored + ttl, i + 1, n)
    ensures var key, entry := KeyOf(calls[i].request, calls[i].user), Entry(FullOf(calls[i]), calls[i].stored + ttl);
            key in After(store, calls, n, ttl) && After(store, calls, n, ttl)[key] == entry
    decreases n
  {
    if i + 1 < n {
      EntryStays(store, calls, ttl, i, n - 1);
      StepKeepsEntry(After(store, calls, n - 1, ttl), calls[n - 1], ttl, KeyOf(calls[i].request, calls[i].user),
        Entry(FullOf(calls[i]), calls[i].stored + ttl));
    }
  }

  /** Within the lifetime of an execution every page is cut from that one execution. */
  lemma OneExecutionServesAll(store: Store, calls: seq<Call>, ttl: int, i: nat, n: nat)
    requires i <= n < |calls| && Runs(store, calls, i, ttl)
    requires For(calls[n], KeyOf(calls[i].request, calls[i].user))
    requires WithinLifetime(calls, KeyOf(calls[i].request, calls[i].user), calls[i].stored + ttl, i + 1, n + 1)
    ensures ResponseTo(store, calls, n, ttl) ==
            PageOf(FullOf(calls[i]), calls[n].request.skip, calls[n].request.limit, i < n)
  {
    if i < n { EntryStays(store, calls, ttl, i, n); }
  }

  /** Call i is the last one of the key before the n-th that ran the query. */
  ghost predicate LastRun(calls: seq<Call>, key: CacheKey, ttl: int, i: nat, n: nat)
    requires i < n <= |calls|
  {
    && For(calls[i], key) && Runs(map[], calls, i, ttl)
    && forall j :: i < j < n && For(calls[j], key) ==> !Runs(map[], calls, j, ttl)
  }

  /** Every entry is from the last call of its key that ran the query. */
  lemma {:induction false} EntriesAreFromLastRuns(calls: seq<Call>, ttl: int, n: nat, key: CacheKey) returns (i: nat)
    requires n <= |calls| && key in After(map[], calls, n, ttl)
    ensures i < n && LastRun(calls, key, ttl, i, n)
    ensures After(map[], calls, n, ttl)[key] == Entry(FullOf(calls[i]), calls[i].stored + ttl)
  {
    if For(calls[n - 1], key) && Runs(map[], calls, n - 1, ttl) {
      i := n - 1;
    } else {
      i := EntriesAreFromLastRuns(calls, ttl, n - 1, key);
    }
  }

  /** Over every run, starting with an empty cache: an answer from the cache is for the same query,
      order and user, from the last call that ran it, and in its lifetime; and such a call did not
      ask for a refresh. */
  lemma HitsAreFresh(calls: seq<Call>, ttl: int, n: nat) returns (i: nat)
    requires n < |calls|
    requires ResponseTo(map[], calls, n, ttl).Page? && ResponseTo(map[], calls, n, ttl).cacheHit
    ensures i < n && LastRun(calls, KeyOf(calls[n].request, calls[n].user), ttl, i, n)
    ensures calls[i].request.query == calls[n].request.query && calls[i].request.sort == calls[n].request.sort
    ensures calls[i].user == calls[n].user
    ensures !calls[n].request.forceRefresh && calls[n].now <= calls[i].stored + ttl
    ensures ResponseTo(map[], calls, n, ttl) ==
            PageOf(FullOf(calls[i]), calls[n].request.skip, calls[n].request.limit, true)
  {
    i := EntriesAreFromLastRuns(calls, ttl, n, KeyOf(calls[n].request, calls[n].user));
  }

  /** Any other answer is what the database says now, or the error of a column that cannot be sorted. */
  lemma {:induction false} MissesRun(store: Store, calls: seq<Call>, ttl: int, n: nat)
    requires n < |calls|
    ensures var response, call := ResponseTo(store, calls, n, ttl), calls[n];
            && (response.TypeError? ==> call.request.sort.Some? && Mixed(call.rows, call.request.sort.value.column))
            && (response.Page? && !response.cacheHit ==>
                 response == PageOf(Full(Ordered(call.rows, call.request.sort), |call.rows|, call.columns),
                     call.request.skip, call.request.limit, false))
  {
  }

  function Responses(store: Store, calls: seq<Call>, ttl: int): (responses: seq<Response>)
    ensures |responses| == |calls|
    ensures forall n :: 0 <= n < |calls| ==> responses[n] == ResponseTo(store, calls, n, ttl)
  {
    seq(|calls|, n requires 0 <= n < |calls| => ResponseTo(store, calls, n, ttl))
  }

  /** The items that the calls of a key get, one page after the other. */
  function Gathered(calls: seq<Call>, responses: seq<Response>, key: CacheKey, i: nat, n: nat): seq<Row>
    requires i <= n <= |calls| == |responses|
  {
    if i == n then []
    else
      var before := Gathered(calls, responses, key, i, n - 1);
      if For(calls[n - 1], key) && responses[n - 1].Page? then before + responses[n - 1].items else before
  }

  function Collected(store: Store, calls: seq<Call>, key: CacheKey, ttl: int, i: nat, n: nat): seq<Row>
    requires i <= n <= |calls|
  {
    Gathered(calls, Responses(store, calls, ttl), key, i, n)
  }

  /** Where the next page must start after the calls from the i-th to before the n-th, if each page
      of the key started where the one before it ended. */
  function NextSkip(calls: seq<Call>, key: CacheKey, i: nat, n: nat): nat
    requires i <= n <= |calls|
  {
    if i == n then 0
    else if For(calls[n - 1], key) then calls[n - 1].request.skip + calls[n - 1].request.limit
    else NextSkip(calls, key, i, n - 1)
  }

  ghost predicate Consecutive(calls: seq<Call>, key: CacheKey, i: nat, n: nat)
    requires i <= n <= |calls|
  {
    forall j :: i <= j < n && For(calls[j], key) ==> calls[j].request.skip == NextSkip(calls, key, i, j)
  }

  lemma {:induction false} NextSlice<T>(s: seq<T>, skip: nat, limit: nat)
    ensures s[..Upto(skip, |s|)] + Slice(s, skip, limit) == s[..Upto(skip + limit, |s|)]
  {
  }

  lemma {:induction false} CutPagesJoin(calls: seq<Call>, responses: seq<Response>, key: CacheKey, items: seq<Row>,
        i: nat, n: nat)
    requires i <= n <= |calls| == |responses| && Consecutive(calls, key, i, n)
    requires forall j :: i <= j < n && For(calls[j], key) ==>
               responses[j].Page? && responses[j].items == Slice(items, calls[j].request.skip, calls[j].request.limit)
    ensures Gathered(calls, responses, key, i, n) == items[..Upto(NextSkip(calls, key, i, n), |items|)]
    decreases n
  {
    if i < n {
      CutPagesJoin(calls, responses, key, items, i, n - 1);
      NextSlice(items, calls[n - 1].request.skip, calls[n - 1].request.limit);
    }
  }

  /** Consecutive pages put together are the beginning of one execution's sorted list. */
  lemma {:induction false} PagesJoin(store: Store, calls: seq<Call>, ttl: int, i: nat, n: nat)
    requires i < n <= |calls| && Runs(store, calls, i, ttl)
    requires var key := KeyOf(calls[i].request, calls[i].user);
             && WithinLifetime(calls, key, calls[i].stored + ttl, i + 1, n)
             && Consecutive(calls, key, i, n)
    ensures var key, items := KeyOf(calls[i].request, calls[i].user), FullOf(calls[i]).items;
            Collected(store, calls, key, ttl, i, n) == items[..Upto(NextSkip(calls, key, i, n), |items|)]
  {
    var key, full, responses := KeyOf(calls[i].request, calls[i].user), FullOf(calls[i]), Responses(store, calls, ttl);
    forall j | i <= j < n && For(calls[j], key)
      ensures responses[j] == PageOf(full, calls[j].request.skip, calls[j].request.limit, i < j) {
      OneExecutionServesAll(store, calls, ttl, i, j);
    }
    CutPagesJoin(calls, responses, key, full.items, i, n);
  }

  /** So pages that reach the total are the whole sorted list, whatever other queries come between
      and whatever the database would answer by then. */
  lemma PagesAreTheExecution(store: Store, calls: seq<Call>, ttl: int, i: nat, n: nat)
    requires i < n <= |calls| && Runs(store, calls, i, ttl)
    requires var key := KeyOf(calls[i].request, calls[i].user);
             && WithinLifetime(calls, key, calls[i].stored + ttl, i + 1, n)
             && Consecutive(calls, key, i, n)
             && |calls[i].rows| <= NextSkip(calls, key, i, n)
    ensures var key := KeyOf(calls[i].request, calls[i].user);
            && Collected(store, calls, key, ttl, i, n) == Ordered(calls[i].rows, calls[i].request.sort)
            && forall j :: i <= j < n && For(calls[j], key) ==>
                 var response := ResponseTo(store, calls, j, ttl);
                 response.Page? && response.total == |calls[i].rows| && response.columns == calls[i].columns
  {
    var key, items := KeyOf(calls[i].request, calls[i].user), FullOf(calls[i]).items;
    PagesJoin(store, calls, ttl, i, n);
    if calls[i].request.sort.Some? {
      SortPermutes(calls[i].rows, SortKey(calls[i].request.sort.value.column), calls[i].request.sort.value.desc);
    }
    assert items[..|items|] == items;
    forall j | i <= j < n && For(calls[j], key)
      ensures ResponseTo(store, calls, j, ttl) ==
              PageOf(FullOf(calls[i]), calls[j].request.skip, calls[j].request.limit, i < j) {
      OneExecutionServesAll(store, calls, ttl, i, j);
    }
  }
}
