/** The two lanes of concepts: filling the gaps of each from the other, in place, on shared rows. */
module ConceptLanes {
  import opened Options

  /** What a row shows; missing values are null. */
  datatype Shown = Shown(last: Option<real>, change: Option<real>, speed: Option<real>)

  /** A row of a lane. The list handed out and the published list hold the same objects. */
  class LaneRow {
    const code: string
    var shown: Shown

    constructor (code: string, shown: Shown)
      ensures this.code == code && this.shown == shown
    {
      this.code, this.shown := code, shown;
    }
  }

  /** The first one's values, and the second one's where the first has none. */
  function Filled(a: Shown, b: Shown): Shown {
    Shown(a.last.OrElse(b.last), a.change.OrElse(b.change), a.speed.OrElse(b.speed))
  }

  ghost function Objects(rows: seq<LaneRow>): set<LaneRow> { set r | r in rows }

  /** The last row of a code; rows without a code are not found. */
  function LastWith(rows: seq<LaneRow>, code: string, n: nat): (r: Option<LaneRow>)
    requires n <= |rows|
    ensures r.Some? ==> r.value in rows && r.value.code == code
  {
    if n == 0 || code == "" then None
    else if rows[n - 1].code == code then Some(rows[n - 1])
    else LastWith(rows, code, n - 1)
  }

  method Index(rows: seq<LaneRow>) returns (byCode: map<string, LaneRow>)
    ensures forall c :: LastWith(rows, c, |rows|) == if c in byCode then Some(byCode[c]) else None
  {
    byCode := map[];
    for n := 0 to |rows|
      invariant forall c :: LastWith(rows, c, n) == if c in byCode then Some(byCode[c]) else None
    {
      if rows[n].code != "" {
        byCode := byCode[rows[n].code := rows[n]];
      }
    }
  }

  /** A row with the gaps filled from the row of its code in another list. */
  function FilledFrom(row: LaneRow, before: Shown, rows: seq<LaneRow>): Shown
    reads rows
  {
    match LastWith(rows, row.code, |rows|)
    case None => before
    case Some(src) => Filled(before, src.shown)
  }

  /** One lane is filled from a list of the other lane, which is left alone. */
  method FillLane(rows: seq<LaneRow>, from: seq<LaneRow>)
    requires Objects(rows) !! Objects(from)
    modifies Objects(rows)
    ensures forall r :: r in rows ==> r.shown == FilledFrom(r, old(r.shown), from)
  {
    var byCode := Index(from);
    ghost var all := Objects(rows);
    for i := 0 to |rows|
      invariant forall q :: q in from ==> q.shown == old(q.shown)
      invariant forall r :: r in all && r in rows[..i] ==> r.shown == FilledFrom(r, old(r.shown), from)
      invariant forall r :: r in all && r !in rows[..i] ==> r.shown == old(r.shown)
    {
      var row := rows[i];
      if row.code in byCode {
        row.shown := Filled(row.shown, byCode[row.code].shown);
      }
      assert rows[..i + 1] == rows[..i] + [row];
    }
    assert rows[..|rows|] == rows;
  }

  /** Both lanes, one after the other. The lanes never share a row, but each list shares its rows
      with the published list of its own lane, so the second pass sees what the first one filled. */
  method EnrichLanes(changeRows: seq<LaneRow>, speedRows: seq<LaneRow>, serving: seq<LaneRow>, cached: seq<LaneRow>)
    requires Objects(changeRows) + Objects(cached) !! Objects(speedRows) + Objects(serving)
    modifies Objects(changeRows) + Objects(speedRows)
    ensures forall r :: r in changeRows ==> r.shown == old(FilledFrom(r, r.shown, serving))
    ensures forall r :: r in speedRows ==> r.shown == FilledFrom(r, old(r.shown), cached)
  {
    FillLane(changeRows, serving);
    FillLane(speedRows, cached);
  }

  function Fields(s: Shown): (bool, bool, bool) { (s.last.Some?, s.change.Some?, s.speed.Some?) }

  /** Nothing shown is replaced. */
  predicate Keeps(a: Shown, b: Shown) {
    && (a.last.Some? ==> b.last == a.last)
    && (a.change.Some? ==> b.change == a.change)
    && (a.speed.Some? ==> b.speed == a.speed)
  }

  /** When the rows of a code are its published ones, both lanes show the same fields of it
      afterwards, nothing that was shown is replaced, and what only one lane had is the same in
      both. */
  method EnrichPublished(changeRows: seq<LaneRow>, speedRows: seq<LaneRow>, serving: seq<LaneRow>, cached: seq<LaneRow>,
      ghost c: LaneRow, ghost s: LaneRow)
    requires Objects(changeRows) + Objects(cached) !! Objects(speedRows) + Objects(serving)
    requires c in changeRows && s in speedRows
    requires LastWith(cached, s.code, |cached|) == Some(c) && LastWith(serving, c.code, |serving|) == Some(s)
    modifies Objects(changeRows) + Objects(speedRows)
    ensures Keeps(old(c.shown), c.shown) && Keeps(old(s.shown), s.shown)
    ensures Fields(c.shown) == Fields(s.shown)
    ensures c.shown == Filled(old(c.shown), old(s.shown)) && s.shown == Filled(old(s.shown), old(c.shown))
  {
    EnrichLanes(changeRows, speedRows, serving, cached);
  }
}
