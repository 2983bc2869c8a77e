/** Which symbol each row of an all-or-nothing host ends up with. */
module QuoteAttribution {
  import opened Options
  import opened QuoteBisection
  import opened QuoteBatch

  /** How many of the first j codes the host supports. */
  function Before(pairs: seq<Pair>, supported: Pair -> bool, j: nat): (i: nat)
    requires j <= |pairs|
    ensures i <= j
  {
    if j == 0 then 0 else Before(pairs, supported, j - 1) + (if supported(pairs[j - 1]) then 1 else 0)
  }

  lemma {:induction false} BeforeGrows(pairs: seq<Pair>, supported: Pair -> bool, j: nat, k: nat)
    requires j < k <= |pairs|
    ensures Before(pairs, supported, j) + (if supported(pairs[j]) then 1 else 0) <= Before(pairs, supported, k)
    ensures Before(pairs, supported, k) <= Before(pairs, supported, j) + (k - j)
  {
    if j + 1 < k { BeforeGrows(pairs, supported, j, k - 1); }
  }

  lemma {:induction false} TakeOne(pairs: seq<Pair>, supported: Pair -> bool, quote: Pair -> Row, j: nat)
    requires j < |pairs|
    ensures Answered(pairs[..j + 1], supported, quote) ==
            Answered(pairs[..j], supported, quote) + (if supported(pairs[j]) then [quote(pairs[j])] else [])
  {
    assert pairs[..j + 1] == pairs[..j] + [pairs[j]];
    AnsweredJoin(pairs[..j], [pairs[j]], supported, quote);
    assert [pairs[j]][1..] == [];
  }

  lemma {:induction false} BeforeCounts(pairs: seq<Pair>, supported: Pair -> bool, quote: Pair -> Row, j: nat)
    requires j <= |pairs|
    ensures |Answered(pairs[..j], supported, quote)| == Before(pairs, supported, j)
  {
    if 0 < j {
      BeforeCounts(pairs, supported, quote, j - 1);
      TakeOne(pairs, supported, quote, j - 1);
    }
  }

  /** The row of a supported code stands as many places early as there are unsupported codes before it. */
  lemma {:induction false} RowOfPair(pairs: seq<Pair>, supported: Pair -> bool, quote: Pair -> Row, j: nat)
    requires j < |pairs| && supported(pairs[j])
    ensures Before(pairs, supported, j) < |Answered(pairs, supported, quote)|
    ensures Answered(pairs, supported, quote)[Before(pairs, supported, j)] == quote(pairs[j])
  {
    TakeOne(pairs, supported, quote, j);
    BeforeCounts(pairs, supported, quote, j);
    HalvesJoin(pairs, j + 1, supported, quote);
  }

  /** Every row is some supported code's. */
  lemma {:induction false} PairOfRow(pairs: seq<Pair>, supported: Pair -> bool, i: nat, n: nat) returns (j: nat)
    requires n <= |pairs| && i < Before(pairs, supported, n)
    ensures j < n && supported(pairs[j]) && Before(pairs, supported, j) == i
  {
    if supported(pairs[n - 1]) && Before(pairs, supported, n - 1) == i {
      j := n - 1;
    } else {
      j := PairOfRow(pairs, supported, i, n - 1);
    }
  }

  /** Every row the host sends is a dict and does not name another wanted symbol than its own. */
  ghost predicate Honest(cleaned: seq<string>, supported: Pair -> bool, quote: Pair -> Row) {
    forall j :: 0 <= j < |cleaned| && supported(PairOf(cleaned[j])) ==>
      MayStand(quote(PairOf(cleaned[j])), cleaned, cleaned[j])
  }

  predicate MayStand(row: Row, cleaned: seq<string>, s: string) {
    row.Row? && (Named(row, s) || RowToSymbol(row).None? || RowToSymbol(row).value !in cleaned)
  }

  predicate Named(row: Row, s: string) { row.Row? && RowToSymbol(row) == Some(s) }

  /** Symbol j is right: taken from its own row, or from none when the code is unsupported. */
  predicate Right(cleaned: seq<string>, supported: Pair -> bool, quote: Pair -> Row, j: nat)
    requires j < |cleaned|
  {
    LastFor(Answered(Pairs(cleaned), supported, quote), cleaned, cleaned[j]) ==
    if supported(PairOf(cleaned[j])) then Some(Before(Pairs(cleaned), supported, j)) else None
  }

  /** The row of symbol j can be told: it names its symbol, or no code before it is unsupported. */
  predicate Tellable(cleaned: seq<string>, supported: Pair -> bool, quote: Pair -> Row, j: nat)
    requires j < |cleaned|
  {
    supported(PairOf(cleaned[j])) && Before(Pairs(cleaned), supported, j) < j ==>
        Named(quote(PairOf(cleaned[j])), cleaned[j])
  }

  lemma {:induction false} OwnerByName(row: Row, i: nat, cleaned: seq<string>, s: string)
    requires row.Row? && s in cleaned && i < |cleaned|
    requires Named(row, s) || RowToSymbol(row).None? || RowToSymbol(row).value !in cleaned
    ensures Owner(row, i, cleaned) == Some(if Named(row, s) then s else cleaned[i])
  {
  }

  lemma {:induction false} OwnerAt(row: Row, i: nat, j: nat, cleaned: seq<string>)
    requires i <= j < |cleaned| && MayStand(row, cleaned, cleaned[j])
    ensures Owner(row, i, cleaned) == Some(if i < j ==> Named(row, cleaned[j]) then cleaned[j] else cleaned[i])
  {
    OwnerByName(row, i, cleaned, cleaned[j]);
  }

  /** The owner of symbol j's row: itself when the row can be told, else the symbol at the row's position. */
  lemma {:induction false} OwnerOfRow(cleaned: seq<string>, supported: Pair -> bool, quote: Pair -> Row, j: nat)
    requires Usable(cleaned) && Honest(cleaned, supported, quote)
    requires j < |cleaned| && supported(PairOf(cleaned[j]))
    ensures var rows, i := Answered(Pairs(cleaned), supported, quote), Before(Pairs(cleaned), supported, j);
            && i < |rows|
            && Owners(rows, cleaned)[i] == Some(if Tellable(cleaned, supported, quote, j) then cleaned[j]
                 else cleaned[i])
  {
    var row, i := quote(PairOf(cleaned[j])), Before(Pairs(cleaned), supported, j);
    assert MayStand(row, cleaned, cleaned[j]);
    RowOfPair(Pairs(cleaned), supported, quote, j);
    OwnerAt(row, i, j, cleaned);
    assert Answered(Pairs(cleaned), supported, quote)[i] == row;
  }

  lemma {:induction false} TellableOwners(cleaned: seq<string>, supported: Pair -> bool, quote: Pair -> Row, i: nat)
        returns (j: nat)
    requires Usable(cleaned) && Honest(cleaned, supported, quote)
    requires forall j :: 0 <= j < |cleaned| ==> Tellable(cleaned, supported, quote, j)
    requires i < |Answered(Pairs(cleaned), supported, quote)|
    ensures j < |cleaned| && supported(PairOf(cleaned[j])) && Before(Pairs(cleaned), supported, j) == i
    ensures Owners(Answered(Pairs(cleaned), supported, quote), cleaned)[i] == Some(cleaned[j])
  {
    var pairs := Pairs(cleaned);
    BeforeCounts(pairs, supported, quote, |pairs|);
    assert pairs[..|pairs|] == pairs;
    j := PairOfRow(pairs, supported, i, |pairs|);
    OwnerOfRow(cleaned, supported, quote, j);
  }

  lemma {:induction false} TellableIsRight(cleaned: seq<string>, supported: Pair -> bool, quote: Pair -> Row, j: nat)
    requires Usable(cleaned) && Honest(cleaned, supported, quote)
    requires forall j :: 0 <= j < |cleaned| ==> Tellable(cleaned, supported, quote, j)
    requires j < |cleaned|
    ensures Right(cleaned, supported, quote, j)
  {
    var rows := Answered(Pairs(cleaned), supported, quote);
    var last := LastFor(rows, cleaned, cleaned[j]);
    if last.Some? {
      var k := TellableOwners(cleaned, supported, quote, last.value);
      assert cleaned[k] == cleaned[j];
    } else if supported(PairOf(cleaned[j])) {
      OwnerOfRow(cleaned, supported, quote, j);
      assert false;
    }
  }

  lemma {:induction false} UntellableGoesWrong(cleaned: seq<string>, supported: Pair -> bool, quote: Pair -> Row,
        j: nat)
    requires Usable(cleaned) && Honest(cleaned, supported, quote)
    requires j < |cleaned| && !Tellable(cleaned, supported, quote, j)
    ensures !Right(cleaned, supported, quote, Before(Pairs(cleaned), supported, j))
  {
    var pairs := Pairs(cleaned);
    var i := Before(pairs, supported, j);
    OwnerOfRow(cleaned, supported, quote, j);
    var last := LastFor(Answered(pairs, supported, quote), cleaned, cleaned[i]);
    assert last.Some? && i <= last.value;
    BeforeGrows(pairs, supported, i, j);
  }

  ghost predicate AllRight(cleaned: seq<string>, supported: Pair -> bool, quote: Pair -> Row) {
    forall j :: 0 <= j < |cleaned| ==> Right(cleaned, supported, quote, j)
  }

  ghost predicate AllTellable(cleaned: seq<string>, supported: Pair -> bool, quote: Pair -> Row) {
    forall j :: 0 <= j < |cleaned| ==> Tellable(cleaned, supported, quote, j)
  }

  lemma {:induction false} TellableAreRight(cleaned: seq<string>, supported: Pair -> bool, quote: Pair -> Row)
    requires Usable(cleaned) && Honest(cleaned, supported, quote) && AllTellable(cleaned, supported, quote)
    ensures AllRight(cleaned, supported, quote)
  {
    forall j | 0 <= j < |cleaned| ensures Right(cleaned, supported, quote, j) {
      TellableIsRight(cleaned, supported, quote, j);
    }
  }

  lemma {:induction false} RightAreTellable(cleaned: seq<string>, supported: Pair -> bool, quote: Pair -> Row, j: nat)
    requires Usable(cleaned) && Honest(cleaned, supported, quote) && AllRight(cleaned, supported, quote)
    requires j < |cleaned|
    ensures Tellable(cleaned, supported, quote, j)
  {
    if !Tellable(cleaned, supported, quote, j) { UntellableGoesWrong(cleaned, supported, quote, j); }
  }

  /** Every symbol is right if and only if every row after the first unsupported code names its symbol. */
  lemma AttributionExactly(cleaned: seq<string>, supported: Pair -> bool, quote: Pair -> Row)
    requires Usable(cleaned) && Honest(cleaned, supported, quote)
    ensures AllRight(cleaned, supported, quote) <==> AllTellable(cleaned, supported, quote)
  {
    if AllTellable(cleaned, supported, quote) {
      TellableAreRight(cleaned, supported, quote);
    }
    if AllRight(cleaned, supported, quote) {
      forall j | 0 <= j < |cleaned| ensures Tellable(cleaned, supported, quote, j) {
        RightAreTellable(cleaned, supported, quote, j);
      }
    }
  }

  ghost predicate AllNamed(cleaned: seq<string>, supported: Pair -> bool, quote: Pair -> Row) {
    forall j :: 0 <= j < |cleaned| && supported(PairOf(cleaned[j])) ==> Named(quote(PairOf(cleaned[j])), cleaned[j])
  }

  lemma {:induction false} NamedIsRight(cleaned: seq<string>, supported: Pair -> bool, quote: Pair -> Row, j: nat)
    requires Usable(cleaned) && AllNamed(cleaned, supported, quote) && j < |cleaned|
    ensures Right(cleaned, supported, quote, j)
  {
    TellableIsRight(cleaned, supported, quote, j);
  }

  /** End to end, for a host that names every row: each item is made from its own symbol's row, and
      blank exactly for the unsupported codes, however the batches were cut and split. */
  lemma EachItemFromItsOwnRow(cleaned: seq<string>, answer: seq<Pair> -> seq<Row>, supported: Pair -> bool,
      quote: Pair -> Row, lookup: string -> string, ts: int, j: nat)
    requires Usable(cleaned) && AllOrNothing(answer, supported, quote) && AllNamed(cleaned, supported, quote)
    requires j < |cleaned|
    ensures var item := ItemFor(AllRows(answer, Pairs(cleaned)), cleaned, cleaned[j], lookup, ts);
            var pair := PairOf(cleaned[j]);
            && (supported(pair) ==> quote(pair).Row? && item == ParseRow(cleaned[j], quote(pair), lookup, ts))
            && (!supported(pair) ==> item == Blank(cleaned[j], lookup, ts))
  {
    var rows := Answered(Pairs(cleaned), supported, quote);
    BatchesAreComplete(answer, Pairs(cleaned), supported, quote);
    NamedIsRight(cleaned, supported, quote, j);
    ItemIsFromLastRow(rows, cleaned, cleaned[j], lookup, ts);
    if supported(PairOf(cleaned[j])) { RowOfPair(Pairs(cleaned), supported, quote, j); }
  }

  /** The whole batch: if the first host that has any rows answers all or nothing and names every
      row, each item of the reply is made from its own symbol's row, or blank exactly when that host
      does not support its code, whatever the hosts before it did. */
  method FetchFromNamingHost(symbols: seq<string>, hosts: seq<Host>, k: nat, ghost supported: Pair -> bool,
      ghost quote: Pair -> Row, lookup: string -> string, ts: int) returns (reply: Reply)
    requires k < |hosts| && Useful(hosts[k], Pairs(Wanted(symbols)))
    requires forall h :: 0 <= h < k ==> !Useful(hosts[h], Pairs(Wanted(symbols)))
    requires AllOrNothing(hosts[k].attempt.answer, supported, quote) && AllNamed(Wanted(symbols), supported, quote)
    ensures |reply.items| == |Wanted(symbols)| && reply.activeHost == hosts[k].name
    ensures forall j :: 0 <= j < |reply.items| ==>
              var symbol, pair := Wanted(symbols)[j], PairOf(Wanted(symbols)[j]);
              && (supported(pair) ==> quote(pair).Row? && reply.items[j] == ParseRow(symbol, quote(pair), lookup, ts))
              && (supported(pair) ==> quote(pair).Row? && ItemSays(reply.items[j], symbol, quote(pair), lookup, ts))
              && (!supported(pair) ==> reply.items[j] == Item(symbol, lookup(symbol), None, None, true, ts))
  {
    reply := FetchQuotes(symbols, true, hosts, lookup, ts);
    ghost var cleaned := Wanted(symbols);
    WantedIsUsable(symbols);
    FirstUsefulHost(hosts, 0, Pairs(cleaned), "", "", k);
    NothingFromNothing(hosts[k], cleaned);
    forall j | 0 <= j < |cleaned| ensures
        var pair := PairOf(cleaned[j]);
        && (supported(pair) ==> quote(pair).Row? && reply.items[j] == ParseRow(cleaned[j], quote(pair), lookup, ts))
        && (supported(pair) ==> quote(pair).Row? && ItemSays(reply.items[j], cleaned[j], quote(pair), lookup, ts))
        && (!supported(pair) ==> reply.items[j] == Blank(cleaned[j], lookup, ts)) {
      EachItemFromItsOwnRow(cleaned, hosts[k].attempt.answer, supported, quote, lookup, ts, j);
      if supported(PairOf(cleaned[j])) { ParsedItemSays(cleaned[j], quote(PairOf(cleaned[j])), lookup, ts); }
    }
  }

  lemma {:induction false} NothingFromNothing(host: Host, cleaned: seq<string>)
    requires Useful(host, Pairs(cleaned))
    ensures cleaned != []
  {
  }

  lemma {:induction false} RowsOfTwo(a: Pair, b: Pair, supported: Pair -> bool, quote: Pair -> Row)
    requires !supported(a) && supported(b)
    ensures Answered([a, b], supported, quote) == [quote(b)]
  {
    TakeOne([a, b], supported, quote, 0);
    TakeOne([a, b], supported, quote, 1);
    assert [a, b][..0] == [] && [a, b][..2] == [a, b];
  }

  /** The fallback can go wrong: the first of two codes is unsupported and the row of the second
      names nothing, so the first symbol gets the second one's row and the second gets none. */
  lemma UnnamedRowGoesAstray(first: string, second: string, row: Row, supported: Pair -> bool, quote: Pair -> Row)
    requires WellFormed(first) && WellFormed(second) && first != second
    requires !supported(PairOf(first)) && supported(PairOf(second))
    requires quote(PairOf(second)) == row && row.Row? && row.market.None?
    ensures var rows := Answered(Pairs([first, second]), supported, quote);
            && rows == [row]
            && LastFor(rows, [first, second], first) == Some(0)
            && LastFor(rows, [first, second], second) == None
  {
    var cleaned := [first, second];
    RowsOfTwo(PairOf(first), PairOf(second), supported, quote);
    assert Pairs(cleaned) == [PairOf(first), PairOf(second)];
    OwnerByName(row, 0, cleaned, first);
    assert Owners([row], cleaned)[0] == Some(first);
  }
}
