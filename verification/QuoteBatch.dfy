/** Batch quotes: symbols, hosts, and whose each row is. */
module QuoteBatch {
  import opened Options
  import opened QuoteBisection
  import Slices
  import opened Strings

  const BATCH_SIZE: nat := 80
  const MAX_SYMBOLS: nat := 100

  // ----- Symbols -----

  predicate Space(c: char) {
    c == ' ' || '\t' <= c <= '\r' || '\U{001C}' <= c <= '\U{001F}'
  }

  predicate Digits(s: string) { s != [] && forall i :: 0 <= i < |s| ==> Digit(s[i]) }

  function StripLeft(s: string): (r: string)
    ensures |r| <= |s| && (r == [] || !Space(r[0]))
  {
    if s != [] && Space(s[0]) then StripLeft(s[1..]) else s
  }

  function StripRight(s: string): (r: string)
    ensures r <= s && (r == [] || !Space(r[|r| - 1]))
  {
    if s != [] && Space(s[|s| - 1]) then StripRight(s[..|s| - 1]) else s
  }

  function Strip(s: string): (r: string)
    ensures r == [] || (!Space(r[0]) && !Space(r[|r| - 1]))
  {
    StripRight(StripLeft(s))
  }

  function UpperChar(c: char): char { if 'a' <= c <= 'z' then c - 'a' + 'A' else c }

  function Upper(s: string): (r: string)
    ensures |r| == |s| && forall i :: 0 <= i < |s| ==> r[i] == UpperChar(s[i])
  {
    seq(|s|, i requires 0 <= i < |s| => UpperChar(s[i]))
  }

  /** Six digits, a dot and SH or SZ. */
  predicate WellFormed(t: string) {
    |t| == 9 && Digits(t[..6]) && t[6] == '.' && t[7] == 'S' && (t[8] == 'H' || t[8] == 'Z')
  }

  function Normalize(raw: string): Option<string> {
    var text := Upper(Strip(raw));
    if WellFormed(text) then Some(text) else None
  }

  datatype Pair = Pair(market: int, code: string)

  function SymbolToTdx(symbol: string): Option<Pair> {
    match Normalize(symbol)
    case None => None
    case Some(sym) => Some(Pair(if sym[8] == 'H' then 1 else 0, sym[..6]))
  }

  /** A cell that is present; float() may fail on it. */
  datatype Cell = Bad | Num(x: real)

  datatype Row =
    | NotDict
    | Row(code: string, market: Option<int>, name: string, reversedBytes1: int, fields: map<string, Cell>)

  function Zeros(n: nat): (z: string)
    ensures |z| == n && forall i :: 0 <= i < n ==> z[i] == '0'
  {
    seq(n, _ => '0')
  }

  function ZFill(code: string): string {
    if |code| < 6 then Zeros(6 - |code|) + code else code
  }

  /** The symbol a row names by its market and code, if it does. */
  function RowToSymbol(row: Row): Option<string>
    requires row.Row?
  {
    var code := Strip(row.code);
    if !Digits(code) then None
    else if row.market == Some(1) then Some(ZFill(code) + ".SH")
    else if row.market == Some(0) then Some(ZFill(code) + ".SZ")
    else None
  }

  lemma {:induction false} NormalizeKeeps(t: string)
    requires WellFormed(t)
    ensures Normalize(t) == Some(t)
  {
    assert forall i :: 0 <= i < 6 ==> t[i] == t[..6][i];
    assert StripLeft(t) == t && StripRight(t) == t;
    assert Upper(t) == t;
  }

  /** Normalising twice is normalising once. */
  lemma NormalizeIsIdempotent(raw: string)
    ensures Normalize(raw).Some? ==> Normalize(Normalize(raw).value) == Normalize(raw)
  {
    if Normalize(raw).Some? { NormalizeKeeps(Normalize(raw).value); }
  }

  /** A text in any case. */
  predicate Spells(u: string, t: string) {
    |u| == |t| && forall i :: 0 <= i < |u| ==> u[i] == t[i] || ('a' <= u[i] <= 'z' && t[i] == u[i] - 'a' + 'A')
  }

  /** The white space of ASCII: tab to carriage return, the four separators, and the blank. */
  lemma {:induction false} SpaceExactly(c: char)
    ensures Space(c) <==> c as int in {9, 10, 11, 12, 13, 28, 29, 30, 31, 32}
  {
  }

  predicate Spaces(s: string) { forall i :: 0 <= i < |s| ==> Space(s[i]) }

  lemma {:induction false} StripLeftParts(s: string) returns (i: nat)
    ensures i <= |s| && StripLeft(s) == s[i..] && Spaces(s[..i])
  {
    i := 0;
    if s != [] && Space(s[0]) {
      var k := StripLeftParts(s[1..]);
      i := k + 1;
      assert s[1..][k..] == s[i..] && s[..i] == [s[0]] + s[1..][..k];
    }
  }

  lemma {:induction false} StripRightParts(s: string) returns (j: nat)
    ensures j <= |s| && StripRight(s) == s[..j] && Spaces(s[j..])
  {
    j := |s|;
    if s != [] && Space(s[|s| - 1]) {
      j := StripRightParts(s[..|s| - 1]);
      assert s[..|s| - 1][..j] == s[..j] && s[j..] == s[..|s| - 1][j..] + [s[|s| - 1]];
    }
  }

  lemma {:induction false} StripLeftSpaces(a: string, s: string)
    requires Spaces(a) && (s != [] ==> !Space(s[0]))
    ensures StripLeft(a + s) == s
  {
    if a == [] {
      assert a + s == s;
    } else {
      StripLeftSpaces(a[1..], s);
      assert (a + s)[1..] == a[1..] + s;
    }
  }

  lemma {:induction false} StripRightSpaces(s: string, b: string)
    requires Spaces(b) && (s != [] ==> !Space(s[|s| - 1]))
    ensures StripRight(s + b) == s
  {
    if b == [] {
      assert s + b == s;
    } else {
      StripRightSpaces(s, b[..|b| - 1]);
      assert (s + b)[..|s + b| - 1] == s + b[..|b| - 1];
    }
  }

  /** Any spelling of a valid symbol, with any white space around it, is normalised to it. */
  lemma {:induction false} SpellingsAreNormalized(a: string, u: string, b: string, t: string)
    requires Spaces(a) && Spaces(b) && WellFormed(t) && Spells(u, t)
    ensures Normalize(a + u + b) == Some(t)
  {
    assert t[..6][0] == t[0];
    assert !Space(u[0]) && !Space(u[8]);
    assert a + u + b == a + (u + b);
    StripLeftSpaces(a, u + b);
    StripRightSpaces(u, b);
    assert Upper(u) == t;
  }

  /** And nothing else is. */
  lemma {:induction false} NormalizedIsSpelling(raw: string) returns (a: string, u: string, b: string)
    requires Normalize(raw).Some?
    ensures raw == a + u + b && Spaces(a) && Spaces(b)
    ensures WellFormed(Normalize(raw).value) && Spells(u, Normalize(raw).value)
  {
    var i := StripLeftParts(raw);
    var j := StripRightParts(raw[i..]);
    a, u, b := raw[..i], raw[i..][..j], raw[i..][j..];
  }

  /** Shanghai is market 1, Shenzhen market 0. */
  lemma {:induction false} MarketsOfExchanges(six: string)
    requires |six| == 6 && Digits(six)
    ensures SymbolToTdx(six + ".SH") == Some(Pair(1, six)) && SymbolToTdx(six + ".SZ") == Some(Pair(0, six))
  {
    forall t | t == six + ".SH" || t == six + ".SZ" ensures WellFormed(t) && t[..6] == six {
      assert t[..6] == six;
    }
    NormalizeKeeps(six + ".SH");
    NormalizeKeeps(six + ".SZ");
  }

  /** A row that carries the market and code a symbol was asked by names that symbol. */
  lemma RowNamesWhatWasAsked(t: string, row: Row)
    requires WellFormed(t) && row.Row?
    ensures SymbolToTdx(t).Some?
    ensures row.market == Some(SymbolToTdx(t).value.market) && row.code == SymbolToTdx(t).value.code ==>
            RowToSymbol(row) == Some(t)
  {
    NormalizeKeeps(t);
    var code := t[..6];
    assert forall i :: 0 <= i < 6 ==> Digit(code[i]);
    assert StripLeft(code) == code && StripRight(code) == code;
    assert t == code + [t[6], t[7], t[8]];
  }

  /** And back: the symbol a row names asks for the row's market and its code filled up to six digits. */
  lemma NamedSymbolAsksForTheRow(row: Row)
    requires row.Row? && RowToSymbol(row).Some? && |Strip(row.code)| <= 6
    ensures SymbolToTdx(RowToSymbol(row).value) == Some(Pair(row.market.value, ZFill(Strip(row.code))))
  {
    var code := ZFill(Strip(row.code));
    var t := RowToSymbol(row).value;
    assert t[..6] == code;
    assert forall i :: 0 <= i < 6 ==> Digit(code[i]);
    NormalizeKeeps(t);
  }

  lemma {:induction false} PairsDiffer(s: string, t: string)
    requires WellFormed(s) && WellFormed(t)
    ensures SymbolToTdx(s) == SymbolToTdx(t) <==> s == t
  {
    NormalizeKeeps(s);
    NormalizeKeeps(t);
    assert s == s[..6] + [s[6], s[7], s[8]] && t == t[..6] + [t[6], t[7], t[8]];
  }

  // ----- Items -----

  datatype Details = Details(preClose: Option<real>, open: Option<real>, high: Option<real>, low: Option<real>,
    volume: Option<real>, amount: Option<real>, changePct: Option<real>)

  datatype Item = Item(symbol: string, name: string, lastPrice: Option<real>, details: Option<Details>, degraded: bool,
    ts: int)

  function PositiveFloat(row: Row, key: string): (r: Option<real>)
    requires row.Row?
    ensures r.Some? ==> 0.0 < r.value
  {
    if key in row.fields && row.fields[key].Num? && 0.0 < row.fields[key].x then Some(row.fields[key].x) else None
  }

  function Float(row: Row, key: string): Option<real>
    requires row.Row?
  {
    if key in row.fields && row.fields[key].Num? then Some(row.fields[key].x) else None
  }

  function Abs(n: int): nat { if n < 0 then -n else n }

  function LastPrice(row: Row): (r: Option<real>)
    requires row.Row?
    ensures r.Some? ==> 0.0 < r.value
  {
    var quoted := PositiveFloat(row, "price").OrElse(PositiveFloat(row, "last")).OrElse(PositiveFloat(row, "close"));
    if quoted.Some? then quoted
    else if row.reversedBytes1 != 0 then Some(Abs(row.reversedBytes1) as real / 100.0)
    else None
  }

  function ChangePct(price: Option<real>, pre: Option<real>): Option<real> {
    if price.Some? && pre.Some? && price.value != 0.0 && 0.0 < pre.value then
      Some((price.value - pre.value) / pre.value * 100.0)
    else None
  }

  function DetailsOf(row: Row, price: Option<real>): Details
    requires row.Row?
  {
    var pre := PositiveFloat(row, "last_close").OrElse(PositiveFloat(row, "pre_close")).OrElse(PositiveFloat(row,
        "prev_close"));
    var volume := if "vol" in row.fields then Float(row, "vol") else Float(row, "volume");
    Details(pre, PositiveFloat(row, "open"), PositiveFloat(row, "high"), PositiveFloat(row, "low"), volume,
        Float(row, "amount"), ChangePct(price, pre))
  }

  /** An item is degraded exactly when it has no price, and a price is positive (see ItemSays for
      all that it says about its row). */
  function ParseRow(symbol: string, row: Row, lookup: string -> string, ts: int): (item: Item)
    requires row.Row?
    ensures item.symbol == symbol
    ensures item.degraded <==> item.lastPrice.None?
    ensures item.lastPrice.Some? ==> 0.0 < item.lastPrice.value
  {
    var price := LastPrice(row);
    var name := if Strip(row.name) != "" then Strip(row.name) else lookup(symbol);
    Item(symbol, name, price, Some(DetailsOf(row, price)), price.None?, ts)
  }

  /** The row's cell of this name is this number. */
  predicate Holds(row: Row, key: string, x: real)
    requires row.Row?
  {
    key in row.fields && row.fields[key] == Num(x)
  }

  ghost predicate HasPositive(row: Row, key: string)
    requires row.Row?
  {
    exists x :: 0.0 < x && Holds(row, key, x)
  }

  /** A value is the first positive one of the named cells, and missing when there is none. */
  ghost predicate FirstPositive(row: Row, keys: seq<string>, v: Option<real>)
    requires row.Row?
  {
    if v.None? then forall k :: 0 <= k < |keys| ==> !HasPositive(row, keys[k])
    else 0.0 < v.value && exists k :: 0 <= k < |keys| && Holds(row, keys[k], v.value)
                            && forall j :: 0 <= j < k ==> !HasPositive(row, keys[j])
  }

  /** A value is that of the named cell, if the cell is a number. */
  ghost predicate Shows(row: Row, key: string, v: Option<real>)
    requires row.Row?
  {
    forall x :: v == Some(x) <==> Holds(row, key, x)
  }

  /** The price is the first of the row's prices or, without one, what its first reserved bytes say. */
  ghost predicate PriceIs(row: Row, price: Option<real>)
    requires row.Row?
  {
    var quoted := ["price", "last", "close"];
    || (price.Some? && FirstPositive(row, quoted, price))
    || (FirstPositive(row, quoted, None)
        && if row.reversedBytes1 == 0 then price.None?
           else price.Some? && 0.0 < price.value
                && (100.0 * price.value == row.reversedBytes1 as real
                    || 100.0 * price.value == -row.reversedBytes1 as real))
  }

  ghost predicate PricesSay(pre: Option<real>, open: Option<real>, high: Option<real>, low: Option<real>, row: Row)
    requires row.Row?
  {
    && FirstPositive(row, ["last_close", "pre_close", "prev_close"], pre)
    && FirstPositive(row, ["open"], open) && FirstPositive(row, ["high"], high) && FirstPositive(row, ["low"], low)
  }

  /** What an item says about its row, cell by cell. */
  ghost predicate DetailsSay(d: Details, price: Option<real>, row: Row)
    requires row.Row?
  {
    && PricesSay(d.preClose, d.open, d.high, d.low, row)
    && Shows(row, if "vol" in row.fields then "vol" else "volume", d.volume) && Shows(row, "amount", d.amount)
    && (d.changePct.Some? <==> price.Some? && d.preClose.Some?)
    && (d.changePct.Some? ==> price.value == d.preClose.value * (1.0 + d.changePct.value / 100.0))
  }

  ghost predicate ItemSays(item: Item, symbol: string, row: Row, lookup: string -> string, ts: int)
    requires row.Row?
  {
    && item.symbol == symbol && item.ts == ts && (item.degraded <==> item.lastPrice.None?)
    && item.name == (if Strip(row.name) != "" then Strip(row.name) else lookup(symbol))
    && PriceIs(row, item.lastPrice)
    && item.details.Some? && DetailsSay(item.details.value, item.lastPrice, row)
  }

  lemma {:induction false} PositiveIsFirst(row: Row, key: string)
    requires row.Row?
    ensures PositiveFloat(row, key).Some? ==> Holds(row, key, PositiveFloat(row, key).value)
    ensures PositiveFloat(row, key).Some? <==> HasPositive(row, key)
    ensures FirstPositive(row, [key], PositiveFloat(row, key))
  {
    var v := PositiveFloat(row, key);
    if v.Some? {
      assert Holds(row, key, v.value);
      assert [key][0] == key;
    }
  }

  lemma {:induction false} FirstOfThree(row: Row, a: string, b: string, c: string)
    requires row.Row?
    ensures FirstPositive(row, [a, b, c],
              PositiveFloat(row, a).OrElse(PositiveFloat(row, b)).OrElse(PositiveFloat(row, c)))
  {
    PositiveIsFirst(row, a);
    PositiveIsFirst(row, b);
    PositiveIsFirst(row, c);
    var keys := [a, b, c];
    var k := if PositiveFloat(row, a).Some? then 0 else if PositiveFloat(row, b).Some? then 1 else 2;
    assert keys[0] == a && keys[1] == b && keys[2] == c;
    var v := PositiveFloat(row, a).OrElse(PositiveFloat(row, b)).OrElse(PositiveFloat(row, c));
    if v.Some? { assert Holds(row, keys[k], v.value); }
  }

  lemma {:induction false} ChangeIsRelative(price: real, pre: real)
    requires 0.0 < price && 0.0 < pre
    ensures ChangePct(Some(price), Some(pre)).Some?
    ensures price == pre * (1.0 + ChangePct(Some(price), Some(pre)).value / 100.0)
  {
    var q := (price - pre) / pre;
    assert q * pre == price - pre;
    assert ChangePct(Some(price), Some(pre)).value / 100.0 == q;
  }

  lemma {:induction false} PriceSays(row: Row)
    requires row.Row?
    ensures PriceIs(row, LastPrice(row))
  {
    FirstOfThree(row, "price", "last", "close");
    var price := LastPrice(row);
    if PositiveFloat(row, "price").OrElse(PositiveFloat(row, "last")).OrElse(PositiveFloat(row, "close")).None?
        && row.reversedBytes1 != 0 {
      assert 100.0 * price.value == Abs(row.reversedBytes1) as real;
    }
  }

  lemma {:induction false} DetailsSayTheRow(row: Row, price: Option<real>)
    requires row.Row? && (price.Some? ==> 0.0 < price.value)
    ensures DetailsSay(DetailsOf(row, price), price, row)
  {
    PricesSayTheRow(row);
    FloatShows(row, if "vol" in row.fields then "vol" else "volume");
    FloatShows(row, "amount");
    ChangeSays(price, DetailsOf(row, price).preClose);
  }

  lemma {:induction false} PricesSayTheRow(row: Row)
    requires row.Row?
    ensures PricesSay(PositiveFloat(row, "last_close").OrElse(PositiveFloat(row, "pre_close")).OrElse(
                PositiveFloat(row, "prev_close")),
              PositiveFloat(row, "open"), PositiveFloat(row, "high"), PositiveFloat(row, "low"), row)
  {
    FirstOfThree(row, "last_close", "pre_close", "prev_close");
    PositiveIsFirst(row, "open");
    PositiveIsFirst(row, "high");
    PositiveIsFirst(row, "low");
  }

  lemma {:induction false} FloatShows(row: Row, key: string)
    requires row.Row?
    ensures Shows(row, key, Float(row, key))
  {
  }

  lemma {:induction false} ChangeSays(price: Option<real>, pre: Option<real>)
    requires (price.Some? ==> 0.0 < price.value) && (pre.Some? ==> 0.0 < pre.value)
    ensures ChangePct(price, pre).Some? <==> price.Some? && pre.Some?
    ensures ChangePct(price, pre).Some? ==> price.value == pre.value * (1.0 + ChangePct(price, pre).value / 100.0)
  {
    if price.Some? && pre.Some? { ChangeIsRelative(price.value, pre.value); }
  }

  /** An item says what its row says, each number under its own name. */
  lemma {:induction false} ParsedItemSays(symbol: string, row: Row, lookup: string -> string, ts: int)
    requires row.Row?
    ensures ItemSays(ParseRow(symbol, row, lookup, ts), symbol, row, lookup, ts)
  {
    PriceSays(row);
    DetailsSayTheRow(row, LastPrice(row));
  }

  /** So a row whose price lies in its day's range gives an item whose price does, with that range. */
  lemma {:induction false} DayRangeIsKept(item: Item, symbol: string, row: Row, lookup: string -> string, ts: int,
      low: real, price: real, high: real)
    requires row.Row? && ItemSays(item, symbol, row, lookup, ts)
    requires Holds(row, "low", low) && Holds(row, "price", price) && Holds(row, "high", high)
    requires 0.0 < low <= price <= high
    ensures item.lastPrice == Some(price) && item.details.value.low == Some(low)
    ensures item.details.value.high == Some(high)
  {
    assert HasPositive(row, "low") && HasPositive(row, "price") && HasPositive(row, "high");
    assert ["price", "last", "close"][0] == "price" && ["low"][0] == "low" && ["high"][0] == "high";
  }

  function Blank(symbol: string, lookup: string -> string, ts: int): Item {
    Item(symbol, lookup(symbol), None, None, true, ts)
  }

  // ----- Which symbols -----

  /** The distinct values among the first n, in order of first appearance. */
  function Distinct<T(==)>(names: seq<Option<T>>, n: nat): (distinct: seq<T>)
    requires n <= |names|
  {
    if n == 0 then []
    else
      var before := Distinct(names, n - 1);
      if names[n - 1].None? || names[n - 1].value in before then before else before + [names[n - 1].value]
  }

  /** No value comes twice. */
  lemma {:induction false} DistinctDiffer<T>(names: seq<Option<T>>, n: nat, j: nat, k: nat)
    requires n <= |names| && j < k < |Distinct(names, n)|
    ensures Distinct(names, n)[j] != Distinct(names, n)[k]
  {
    if k < |Distinct(names, n - 1)| {
      DistinctDiffer(names, n - 1, j, k);
    } else {
      assert Distinct(names, n)[j] in Distinct(names, n - 1);
    }
  }

  /** Exactly the given values are there. */
  lemma {:induction false} DistinctContents<T>(names: seq<Option<T>>, n: nat, s: T)
    requires n <= |names|
    ensures s in Distinct(names, n) <==> exists i :: 0 <= i < n && names[i] == Some(s)
  {
    if 0 < n { DistinctContents(names, n - 1, s); }
  }

  /** More values only add at the end: the order is that of first appearance. */
  lemma {:induction false} DistinctGrows<T>(names: seq<Option<T>>, m: nat, n: nat)
    requires m <= n <= |names|
    ensures Distinct(names, m) <= Distinct(names, n)
  {
    if m < n { DistinctGrows(names, m, n - 1); }
  }

  function Names(symbols: seq<string>): (names: seq<Option<string>>)
    ensures |names| == |symbols| && forall i :: 0 <= i < |symbols| ==> names[i] == Normalize(symbols[i])
  {
    seq(|symbols|, i requires 0 <= i < |symbols| => Normalize(symbols[i]))
  }

  /** The symbols to quote: the first hundred distinct valid ones. */
  function Wanted(symbols: seq<string>): (cleaned: seq<string>)
    ensures |cleaned| <= MAX_SYMBOLS
  {
    var all := Distinct(Names(symbols), |symbols|);
    if MAX_SYMBOLS < |all| then all[..MAX_SYMBOLS] else all
  }

  ghost predicate Usable(cleaned: seq<string>) {
    && (forall j, k :: 0 <= j < k < |cleaned| ==> cleaned[j] != cleaned[k])
    && (forall j :: 0 <= j < |cleaned| ==> WellFormed(cleaned[j]))
  }

  lemma WantedIsUsable(symbols: seq<string>)
    ensures Usable(Wanted(symbols))
  {
    var names := Names(symbols);
    var all := Distinct(names, |names|);
    forall j, k | 0 <= j < k < |all| ensures all[j] != all[k] {
      DistinctDiffer(names, |names|, j, k);
    }
    forall j | 0 <= j < |all| ensures WellFormed(all[j]) {
      DistinctContents(names, |names|, all[j]);
    }
  }

  /** The pair each symbol is asked by. */
  function PairOf(symbol: string): Pair { SymbolToTdx(symbol).GetOr(Pair(0, "")) }

  function Pairs(cleaned: seq<string>): (pairs: seq<Pair>)
    ensures |pairs| == |cleaned| && forall j :: 0 <= j < |cleaned| ==> pairs[j] == PairOf(cleaned[j])
  {
    seq(|cleaned|, j requires 0 <= j < |cleaned| => PairOf(cleaned[j]))
  }

  // ----- Asking the hosts -----

  function RowsOf(answer: seq<Pair> -> seq<Row>, batches: seq<seq<Pair>>): seq<Row> {
    if batches == [] then [] else Resilient(answer, batches[0]) + RowsOf(answer, batches[1..])
  }

  function AllRows(answer: seq<Pair> -> seq<Row>, pairs: seq<Pair>): seq<Row> {
    RowsOf(answer, Slices.Pieces(pairs, 0, BATCH_SIZE))
  }

  function CallsOf(answer: seq<Pair> -> seq<Row>, batches: seq<seq<Pair>>): nat {
    if batches == [] then 0 else Calls(answer, batches[0]) + CallsOf(answer, batches[1..])
  }

  lemma {:induction false} RowsOfBatches(answer: seq<Pair> -> seq<Row>, batches: seq<seq<Pair>>,
      supported: Pair -> bool, quote: Pair -> Row)
    requires AllOrNothing(answer, supported, quote)
    ensures RowsOf(answer, batches) == Answered(Slices.Flatten(batches), supported, quote)
  {
    if batches != [] {
      RowsOfBatches(answer, batches[1..], supported, quote);
      BisectionIsComplete(answer, batches[0], supported, quote);
      AnsweredJoin(batches[0], Slices.Flatten(batches[1..]), supported, quote);
    }
  }

  /** Cutting into batches and splitting them changes nothing: the rows are those of the supported
      codes, in request order. */
  lemma BatchesAreComplete(answer: seq<Pair> -> seq<Row>, pairs: seq<Pair>, supported: Pair -> bool, quote: Pair -> Row)
    requires AllOrNothing(answer, supported, quote)
    ensures AllRows(answer, pairs) == Answered(pairs, supported, quote)
  {
    RowsOfBatches(answer, Slices.Pieces(pairs, 0, BATCH_SIZE), supported, quote);
    Slices.PiecesCover(pairs, 0, BATCH_SIZE);
    assert pairs[0..] == pairs;
  }

  lemma {:induction false} CallsOfBatches(answer: seq<Pair> -> seq<Row>, batches: seq<seq<Pair>>,
      supported: Pair -> bool, quote: Pair -> Row)
    requires AllOrNothing(answer, supported, quote)
    requires forall b :: b in batches ==> 1 <= |b| <= BATCH_SIZE
    ensures CallsOf(answer, batches) <= 14 * Unsupported(Slices.Flatten(batches), supported) + |batches|
  {
    if batches != [] {
      var batch := batches[0];
      assert batch in batches;
      CallsOfBatches(answer, batches[1..], supported, quote);
      AnsweredJoin(batch, Slices.Flatten(batches[1..]), supported, quote);
      CeilLog2IsLeast(|batch|, 7);
      CallsAndDescents(answer, batch, supported, quote, 7);
      DescentsProduct(Unsupported(batch, supported), 7);
    }
  }

  /** One host is asked at most fourteen times for each unsupported code, and twice more. */
  lemma OneHostCallBound(answer: seq<Pair> -> seq<Row>, pairs: seq<Pair>, supported: Pair -> bool, quote: Pair -> Row)
    requires AllOrNothing(answer, supported, quote) && |pairs| <= MAX_SYMBOLS
    ensures CallsOf(answer, Slices.Pieces(pairs, 0, BATCH_SIZE)) <= 14 * Unsupported(pairs, supported) + 2
  {
    Slices.PiecesCover(pairs, 0, BATCH_SIZE);
    Slices.PiecesCount(pairs, 0, BATCH_SIZE);
    CallsOfBatches(answer, Slices.Pieces(pairs, 0, BATCH_SIZE), supported, quote);
    assert pairs[0..] == pairs;
  }

  /** What happens with a host: no connection, an exception before or after connecting, or answers. */
  datatype Attempt =
    | Refused | RaisesEarly(error: string) | RaisesLater(error: string) | Answers(answer: seq<Pair> -> seq<Row>)

  datatype Host = Host(name: string, attempt: Attempt)

  datatype Fetched = Fetched(rows: Option<seq<Row>>, lastError: string, activeHost: string)

  function Fetch(hosts: seq<Host>, i: nat, pairs: seq<Pair>, lastError: string, activeHost: string): Fetched
    requires i <= |hosts|
    decreases |hosts| - i
  {
    if i == |hosts| then Fetched(None, lastError, activeHost)
    else
      match hosts[i].attempt
      case Refused => Fetch(hosts, i + 1, pairs, "connect failed " + hosts[i].name, activeHost)
      case RaisesEarly(error) => Fetch(hosts, i + 1, pairs, error, activeHost)
      case RaisesLater(error) => Fetch(hosts, i + 1, pairs, error, hosts[i].name)
      case Answers(answer) =>
        var rows := AllRows(answer, pairs);
        if rows == [] then Fetch(hosts, i + 1, pairs, "empty quotes " + hosts[i].name, hosts[i].name)
        else Fetched(Some(rows), lastError, hosts[i].name)
  }

  predicate Useful(host: Host, pairs: seq<Pair>) {
    host.attempt.Answers? && AllRows(host.attempt.answer, pairs) != []
  }

  /** What is said about a host without rows. */
  ghost function Complaint(host: Host): string {
    match host.attempt
    case Refused => "connect failed " + host.name
    case RaisesEarly(error) => error
    case RaisesLater(error) => error
    case Answers(_) => "empty quotes " + host.name
  }

  predicate Connects(host: Host) { host.attempt.RaisesLater? || host.attempt.Answers? }

  /** The rows are those of the first host that has any; the last complaint is that of the host
      before it. */
  lemma {:induction false} FirstUsefulHost(hosts: seq<Host>, i: nat, pairs: seq<Pair>, lastError: string,
        activeHost: string, k: nat)
    requires i <= k < |hosts| && Useful(hosts[k], pairs)
    requires forall h :: i <= h < k ==> !Useful(hosts[h], pairs)
    ensures Fetch(hosts, i, pairs, lastError, activeHost).rows == Some(AllRows(hosts[k].attempt.answer, pairs))
    ensures Fetch(hosts, i, pairs, lastError, activeHost).activeHost == hosts[k].name
    ensures Fetch(hosts, i, pairs, lastError, activeHost).lastError ==
            if i < k then Complaint(hosts[k - 1]) else lastError
    decreases k - i
  {
    if i < k {
      match hosts[i].attempt
      case Refused => FirstUsefulHost(hosts, i + 1, pairs, "connect failed " + hosts[i].name, activeHost, k);
      case RaisesEarly(error) => FirstUsefulHost(hosts, i + 1, pairs, error, activeHost, k);
      case RaisesLater(error) => FirstUsefulHost(hosts, i + 1, pairs, error, hosts[i].name, k);
      case Answers(_) => FirstUsefulHost(hosts, i + 1, pairs, "empty quotes " + hosts[i].name, hosts[i].name, k);
    }
  }

  lemma {:induction false} NoUsefulHost(hosts: seq<Host>, i: nat, pairs: seq<Pair>, lastError: string,
        activeHost: string)
    requires i <= |hosts|
    requires forall h :: i <= h < |hosts| ==> !Useful(hosts[h], pairs)
    ensures Fetch(hosts, i, pairs, lastError, activeHost).rows == None
    ensures Fetch(hosts, i, pairs, lastError, activeHost).lastError ==
            if i < |hosts| then Complaint(hosts[|hosts| - 1]) else lastError
    decreases |hosts| - i
  {
    if i < |hosts| {
      match hosts[i].attempt
      case Refused => NoUsefulHost(hosts, i + 1, pairs, "connect failed " + hosts[i].name, activeHost);
      case RaisesEarly(error) => NoUsefulHost(hosts, i + 1, pairs, error, activeHost);
      case RaisesLater(error) => NoUsefulHost(hosts, i + 1, pairs, error, hosts[i].name);
      case Answers(_) => NoUsefulHost(hosts, i + 1, pairs, "empty quotes " + hosts[i].name, hosts[i].name);
    }
  }

  /** Then the active host is the last one that connected. */
  lemma {:induction false} ActiveIsLastConnected(hosts: seq<Host>, i: nat, pairs: seq<Pair>, lastError: string,
        activeHost: string, k: nat)
    requires i <= |hosts| && forall h :: i <= h < |hosts| ==> !Useful(hosts[h], pairs)
    requires k < |hosts| ==> i <= k && Connects(hosts[k])
    requires forall h :: i <= h < |hosts| && (k < h || |hosts| <= k) ==> !Connects(hosts[h])
    ensures Fetch(hosts, i, pairs, lastError, activeHost).activeHost ==
            if k < |hosts| then hosts[k].name else activeHost
    decreases |hosts| - i
  {
    if i < |hosts| {
      var active := if Connects(hosts[i]) then hosts[i].name else activeHost;
      if i == k {
        ActiveIsLastConnected(hosts, i + 1, pairs, Complaint(hosts[i]), active, |hosts|);
      } else {
        ActiveIsLastConnected(hosts, i + 1, pairs, Complaint(hosts[i]), active, k);
      }
    }
  }

  // ----- Giving rows to symbols -----

  /** The symbol row i is taken for: the wanted one it names, or else the one at its position. */
  function Owner(row: Row, i: nat, cleaned: seq<string>): Option<string> {
    if row.NotDict? then None
    else
      var named := RowToSymbol(row);
      if named.Some? && named.value in cleaned then named
      else if i < |cleaned| then Some(cleaned[i])
      else None
  }

  function Owners(rows: seq<Row>, cleaned: seq<string>): (owners: seq<Option<string>>)
    ensures |owners| == |rows| && forall i :: 0 <= i < |rows| ==> owners[i] == Owner(rows[i], i, cleaned)
  {
    seq(|rows|, i requires 0 <= i < |rows| => Owner(rows[i], i, cleaned))
  }

  /** The last of the first n places that hold a value. */
  function LastOf<T(==)>(owners: seq<Option<T>>, s: T, n: nat): (last: Option<nat>)
    requires n <= |owners|
    ensures last.Some? ==> last.value < n && owners[last.value] == Some(s)
    ensures last.Some? ==> forall i :: last.value < i < n ==> owners[i] != Some(s)
    ensures last.None? ==> forall i :: 0 <= i < n ==> owners[i] != Some(s)
  {
    if n == 0 then None
    else if owners[n - 1] == Some(s) then Some(n - 1)
    else LastOf(owners, s, n - 1)
  }

  /** The last row taken for a symbol. */
  function LastFor(rows: seq<Row>, cleaned: seq<string>, s: string): (last: Option<nat>)
    ensures last.Some? ==> last.value < |rows| && rows[last.value].Row?
  {
    LastOf(Owners(rows, cleaned), s, |rows|)
  }

  /** What row i is made into, if it is taken for a symbol. */
  function Taken(row: Row, i: nat, cleaned: seq<string>, lookup: string -> string, ts: int): (item: Option<Item>)
    ensures item.Some? <==> Owner(row, i, cleaned).Some?
    ensures item.Some? ==> Owner(row, i, cleaned) == Some(item.value.symbol)
  {
    match Owner(row, i, cleaned)
    case Some(s) => Some(ParseRow(s, row, lookup, ts))
    case None => None
  }

  function AllTaken(rows: seq<Row>, cleaned: seq<string>, lookup: string -> string, ts: int): (items: seq<Option<Item>>)
    ensures |items| == |rows| && forall i :: 0 <= i < |rows| ==> items[i] == Taken(rows[i], i, cleaned, lookup, ts)
  {
    seq(|rows|, i requires 0 <= i < |rows| => Taken(rows[i], i, cleaned, lookup, ts))
  }

  function LastItem(items: seq<Option<Item>>, s: string, n: nat): (item: Option<Item>)
    requires n <= |items|
    ensures item.Some? ==> item.value.symbol == s
  {
    if n == 0 then None
    else if items[n - 1].Some? && items[n - 1].value.symbol == s then items[n - 1]
    else LastItem(items, s, n - 1)
  }

  /** A symbol's item: what the last row taken for it is made into. */
  function ItemFor(rows: seq<Row>, cleaned: seq<string>, s: string, lookup: string -> string, ts: int): (item: Item)
    ensures item.symbol == s
  {
    LastItem(AllTaken(rows, cleaned, lookup, ts), s, |rows|).GetOr(Blank(s, lookup, ts))
  }

  lemma {:induction false} LastItemIsOfLastRow(rows: seq<Row>, cleaned: seq<string>, s: string,
        lookup: string -> string, ts: int, n: nat)
    requires n <= |rows|
    ensures var last := LastOf(Owners(rows, cleaned), s, n);
            LastItem(AllTaken(rows, cleaned, lookup, ts), s, n) ==
            if last.None? then None else Taken(rows[last.value], last.value, cleaned, lookup, ts)
  {
    if 0 < n {
      LastItemIsOfLastRow(rows, cleaned, s, lookup, ts, n - 1);
      var owner, item := Owners(rows, cleaned)[n - 1], AllTaken(rows, cleaned, lookup, ts)[n - 1];
      assert item == Taken(rows[n - 1], n - 1, cleaned, lookup, ts) && owner == Owner(rows[n - 1], n - 1, cleaned);
      assert owner == Some(s) <==> item.Some? && item.value.symbol == s;
    }
  }

  /** In terms of rows: an item is made from the last row taken for its symbol, or blank. */
  lemma ItemIsFromLastRow(rows: seq<Row>, cleaned: seq<string>, s: string, lookup: string -> string, ts: int)
    ensures ItemFor(rows, cleaned, s, lookup, ts) ==
            match LastFor(rows, cleaned, s)
            case Some(i) => ParseRow(s, rows[i], lookup, ts)
            case None => Blank(s, lookup, ts)
  {
    LastItemIsOfLastRow(rows, cleaned, s, lookup, ts, |rows|);
  }

  // ----- The methods -----

  method CleanSymbols(symbols: seq<string>) returns (cleaned: seq<string>)
    ensures cleaned == Wanted(symbols)
    ensures var all := Distinct(Names(symbols), |symbols|);
            cleaned <= all && |cleaned| == if |all| <= 100 then |all| else 100
  {
    cleaned := [];
    var seen: set<string> := {};
    ghost var names := Names(symbols);
    for n := 0 to |symbols|
      invariant cleaned == Distinct(names, n)
      invariant forall s :: s in seen <==> s in cleaned
    {
      var sym := Normalize(symbols[n]);
      if sym.Some? && sym.value !in seen {
        seen := seen + {sym.value};
        cleaned := cleaned + [sym.value];
      }
    }
    if MAX_SYMBOLS < |cleaned| {
      cleaned := cleaned[..MAX_SYMBOLS];
    }
  }

  method PairsOf(cleaned: seq<string>) returns (pairs: seq<Pair>, symbolByPair: map<Pair, string>)
    requires Usable(cleaned)
    ensures pairs == Pairs(cleaned)
    ensures forall j :: 0 <= j < |cleaned| ==> pairs[j] in symbolByPair && symbolByPair[pairs[j]] == cleaned[j]
  {
    pairs, symbolByPair := [], map[];
    for n := 0 to |cleaned|
      invariant |pairs| == n && forall j :: 0 <= j < n ==> pairs[j] == PairOf(cleaned[j])
      invariant forall j :: 0 <= j < n ==> pairs[j] in symbolByPair && symbolByPair[pairs[j]] == cleaned[j]
    {
      NormalizeKeeps(cleaned[n]);
      var tdx := SymbolToTdx(cleaned[n]);
      forall j | 0 <= j < n ensures pairs[j] != tdx.value {
        NormalizeKeeps(cleaned[j]);
        PairsDiffer(cleaned[j], cleaned[n]);
      }
      if tdx.Some? {
        pairs := pairs + [tdx.value];
        symbolByPair := symbolByPair[tdx.value := cleaned[n]];
      }
    }
  }

  method AskHost(answer: seq<Pair> -> seq<Row>, pairs: seq<Pair>) returns (allRows: seq<Row>)
    ensures allRows == AllRows(answer, pairs)
  {
    allRows := [];
    var i := 0;
    while i < |pairs|
      invariant AllRows(answer, pairs) == allRows + RowsOf(answer, Slices.Pieces(pairs, i, BATCH_SIZE))
      decreases |pairs| - i
    {
      var batch := pairs[i..Slices.Upto(i + BATCH_SIZE, |pairs|)];
      var rest := Slices.Pieces(pairs, i + BATCH_SIZE, BATCH_SIZE);
      assert ([batch] + rest)[1..] == rest;
      allRows := allRows + Resilient(answer, batch);
      i := i + BATCH_SIZE;
    }
  }

  method AskHosts(hosts: seq<Host>, pairs: seq<Pair>)
        returns (rows: Option<seq<Row>>, lastError: string, activeHost: string)
    ensures Fetched(rows, lastError, activeHost) == Fetch(hosts, 0, pairs, "", "")
  {
    rows, lastError, activeHost := None, "", "";
    for i := 0 to |hosts|
      invariant rows.None? && Fetch(hosts, i, pairs, lastError, activeHost) == Fetch(hosts, 0, pairs, "", "")
    {
      match hosts[i].attempt {
        case Refused => lastError := "connect failed " + hosts[i].name;
        case RaisesEarly(error) => lastError := error;
        case RaisesLater(error) =>
          activeHost := hosts[i].name;
          lastError := error;
        case Answers(answer) =>
          activeHost := hosts[i].name;
          var allRows := AskHost(answer, pairs);
          if allRows != [] {
            return Some(allRows), lastError, activeHost;
          }
          lastError := "empty quotes " + hosts[i].name;
      }
    }
  }

  method BySymbol(rows: seq<Row>, cleaned: seq<string>, pairs: seq<Pair>, symbolByPair: map<Pair, string>,
      lookup: string -> string, ts: int) returns (bySym: map<string, Item>)
    requires pairs == Pairs(cleaned)
    requires forall j :: 0 <= j < |cleaned| ==> pairs[j] in symbolByPair && symbolByPair[pairs[j]] == cleaned[j]
    ensures ByLastItem(bySym, AllTaken(rows, cleaned, lookup, ts), |rows|)
  {
    bySym := map[];
    ghost var items := AllTaken(rows, cleaned, lookup, ts);
    for i := 0 to |rows|
      invariant ByLastItem(bySym, items, i)
    {
      var item := TakeByPair(rows[i], i, cleaned, pairs, symbolByPair, lookup, ts);
      assert item == items[i];
      if item.Some? {
        bySym := bySym[item.value.symbol := item.value];
      }
    }
  }

  ghost predicate ByLastItem(bySym: map<string, Item>, items: seq<Option<Item>>, n: nat)
    requires n <= |items|
  {
    forall s :: LastItem(items, s, n) == if s in bySym then Some(bySym[s]) else None
  }

  method TakeByPair(row: Row, i: nat, cleaned: seq<string>, pairs: seq<Pair>, symbolByPair: map<Pair, string>,
      lookup: string -> string, ts: int) returns (item: Option<Item>)
    requires pairs == Pairs(cleaned)
    requires forall j :: 0 <= j < |cleaned| ==> pairs[j] in symbolByPair && symbolByPair[pairs[j]] == cleaned[j]
    ensures item == Taken(row, i, cleaned, lookup, ts)
  {
    if row.NotDict? {
      return None;
    }
    var sym := RowToSymbol(row);
    if sym.None? || sym.value !in cleaned {
      sym := if i < |pairs| && pairs[i] in symbolByPair then Some(symbolByPair[pairs[i]]) else None;
    }
    item := if sym.Some? && sym.value in cleaned then Some(ParseRow(sym.value, row, lookup, ts)) else None;
  }

  predicate AnyOk(items: seq<Item>) { exists j :: 0 <= j < |items| && !items[j].degraded }

  method Blanks(cleaned: seq<string>, lookup: string -> string, ts: int) returns (items: seq<Item>)
    ensures |items| == |cleaned| && forall j :: 0 <= j < |items| ==> items[j] == Blank(cleaned[j], lookup, ts)
  {
    items := seq(|cleaned|, j requires 0 <= j < |cleaned| => Blank(cleaned[j], lookup, ts));
  }

  datatype Reply = Reply(items: seq<Item>, degraded: bool, message: string, activeHost: string)

  method Items(cleaned: seq<string>, bySym: map<string, Item>, ghost taken: seq<Option<Item>>,
        lookup: string -> string, ts: int)
    returns (items: seq<Item>)
    requires ByLastItem(bySym, taken, |taken|)
    ensures |items| == |cleaned|
    ensures forall j :: 0 <= j < |items| ==>
            items[j] == LastItem(taken, cleaned[j], |taken|).GetOr(Blank(cleaned[j], lookup, ts))
  {
    items := [];
    for j := 0 to |cleaned|
      invariant |items| == j
      invariant forall k :: 0 <= k < j ==>
                  items[k] == LastItem(taken, cleaned[k], |taken|).GetOr(Blank(cleaned[k], lookup, ts))
    {
      items := items + [if cleaned[j] in bySym then bySym[cleaned[j]] else Blank(cleaned[j], lookup, ts)];
    }
  }

  /** What the items of a batch must be: with rows, each from the last row taken for its symbol. */
  ghost predicate ItemsAre(items: seq<Item>, cleaned: seq<string>, rows: Option<seq<Row>>, lookup: string -> string,
        ts: int) {
    && |items| == |cleaned|
    && forall j :: 0 <= j < |cleaned| ==>
         items[j] == match rows
                     case Some(r) => ItemFor(r, cleaned, cleaned[j], lookup, ts)
                     case None => Blank(cleaned[j], lookup, ts)
  }

  function OrText(text: string, otherwise: string): string { if text != "" then text else otherwise }

  /** What a reply says besides its items: it is degraded when there were symbols and no item has
      a price. */
  ghost predicate Summary(reply: Reply, cleaned: seq<string>, slot: bool, fetched: Fetched) {
    && (reply.degraded <==> cleaned != [] && forall j :: 0 <= j < |reply.items| ==> reply.items[j].degraded)
    && reply.activeHost == (if cleaned == [] || !slot then "" else fetched.activeHost)
    && reply.message == if !reply.degraded then ""
                        else if !slot then "pytdx busy"
                        else if fetched.lastError != "" then fetched.lastError
                        else if fetched.rows.None? then "all pytdx hosts failed"
                        else "no valid quotes"
  }

  method QuotesFor(cleaned: seq<string>, slot: bool, hosts: seq<Host>, lookup: string -> string, ts: int)
        returns (reply: Reply)
    requires Usable(cleaned)
    ensures ItemsAre(reply.items, cleaned, if slot then Fetch(hosts, 0, Pairs(cleaned), "", "").rows else None,
            lookup, ts)
    ensures Summary(reply, cleaned, slot, Fetch(hosts, 0, Pairs(cleaned), "", ""))
    ensures reply.degraded <==> reply.message != ""
  {
    if cleaned == [] {
      return Reply([], false, "", "");
    }
    var pairs, symbolByPair := PairsOf(cleaned);
    if !slot {
      var items := Blanks(cleaned, lookup, ts);
      return Reply(items, true, "pytdx busy", "");
    }
    var rows, lastError, activeHost := AskHosts(hosts, pairs);
    if rows.None? {
      var items := Blanks(cleaned, lookup, ts);
      return Reply(items, true, OrText(lastError, "all pytdx hosts failed"), activeHost);
    }
    var bySym := BySymbol(rows.value, cleaned, pairs, symbolByPair, lookup, ts);
    var items := Items(cleaned, bySym, AllTaken(rows.value, cleaned, lookup, ts), lookup, ts);
    var anyOk := AnyOk(items);
    reply := Reply(items, !anyOk, if anyOk then "" else OrText(lastError, "no valid quotes"), activeHost);
  }

  /** The whole batch. There is exactly one item for each wanted symbol, in order, whatever the
      hosts do. */
  method FetchQuotes(symbols: seq<string>, slot: bool, hosts: seq<Host>, lookup: string -> string, ts: int)
        returns (reply: Reply)
    ensures var cleaned := Wanted(symbols);
            && ItemsAre(reply.items, cleaned, if slot then Fetch(hosts, 0, Pairs(cleaned), "", "").rows else None,
                 lookup, ts)
            && (forall j :: 0 <= j < |cleaned| ==> reply.items[j].symbol == cleaned[j])
            && Summary(reply, cleaned, slot, Fetch(hosts, 0, Pairs(cleaned), "", ""))
            && (reply.degraded <==> reply.message != "")
  {
    var cleaned := CleanSymbols(symbols);
    WantedIsUsable(symbols);
    reply := QuotesFor(cleaned, slot, hosts, lookup, ts);
  }
}
