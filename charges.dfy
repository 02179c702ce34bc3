/**
 * `GET /charges/`: the caller's charges, optionally limited to an inclusive
 * date range, ordered by `(date_charged, id)`, each row's date written back
 * as text.
 */
module Charges {
  import opened Common
  import opened Sorting
  import opened Dates

  /** A row of the Charges table, with `date_charged` converted to a date. */
  datatype Charge = Charge(id: int, user: int, project: int, hours: int, dateCharged: Date, created: int)

  /** The `date_charged` entry of a row dictionary: a date, or text once rendered. */
  datatype DateCell = AsDate(date: Date) | AsText(text: string)

  /** `dict(charge)`: a row as the handler holds it before serialising it. */
  datatype ChargeRow = ChargeRow(id: int, user: int, project: int, hours: int, dateCharged: DateCell, created: int)

  /** The optional `date_range` object of the request body, its members as sent. */
  datatype DateRange = DateRange(start: Option<string>, end: Option<string>)

  /** A checked range: both ends parsed and `start <= end`. */
  datatype Bounds = Bounds(start: Date, end: Date)

  const StartRequired := HttpError("Start date required", BadRequest)
  const EndRequired := HttpError("End date required", BadRequest)
  const InvalidFormat := HttpError("Invalid date format, use YYYY-MM-DD", BadRequest)
  const EndBeforeStart := HttpError("End date must be after start date", BadRequest)

  function ChargeId(c: Charge): int
  {
    c.id
  }

  /** The table keeps `id` as its primary key and holds only real dates. */
  ghost predicate ValidTable(table: seq<Charge>)
  {
    UniqueBy(table, ChargeId) && forall c :: c in table ==> ValidDate(c.dateCharged)
  }

  /**
   * The validation chain of the handler: start missing, then end missing,
   * then both parsed, then `start <= end`. `Ok(None)` means no range was given.
   */
  function ValidateRange(dateRange: Option<DateRange>): (r: Result<Option<Bounds>>)
    ensures dateRange.None? ==> r == Ok(None)
    ensures dateRange.Some? && dateRange.value.start.None? ==> r == Err(StartRequired)
    ensures dateRange.Some? && dateRange.value.start.Some? && dateRange.value.end.None? ==> r == Err(EndRequired)
    ensures dateRange.Some? && dateRange.value.start.Some? && dateRange.value.end.Some? ==>
      var start, end := Parse(dateRange.value.start.value), Parse(dateRange.value.end.value);
      && ((start.None? || end.None?) ==> r == Err(InvalidFormat))
      && (start.Some? && end.Some? && !NotAfter(start.value, end.value) ==> r == Err(EndBeforeStart))
      && (start.Some? && end.Some? && NotAfter(start.value, end.value) ==> r == Ok(Some(Bounds(start.value, end.value))))
    ensures r.Err? ==> r.error.status == BadRequest
  {
    match dateRange
    case None => Ok(None)
    case Some(DateRange(start, end)) =>
      if start.None? then Err(StartRequired)
      else if end.None? then Err(EndRequired)
      else
        var s, e := Parse(start.value), Parse(end.value);
        if s.None? || e.None? then Err(InvalidFormat)
        else if !NotAfter(s.value, e.value) then Err(EndBeforeStart)
        else Ok(Some(Bounds(s.value, e.value)))
  }

  /**
   * The ranges that pass validation are exactly those whose two ends are
   * canonical renderings of valid dates, the start not after the end.
   */
  lemma AcceptedRanges(dateRange: Option<DateRange>, a: Date, b: Date)
    ensures ValidateRange(dateRange) == Ok(Some(Bounds(a, b))) <==>
      ValidDate(a) && ValidDate(b) && NotAfter(a, b) &&
      dateRange == Some(DateRange(Some(Render(a)), Some(Render(b))))
  {
    if dateRange.Some? && dateRange.value.start.Some? && dateRange.value.end.Some? {
      ParseExactlyRenderings(dateRange.value.start.value, a);
      ParseExactlyRenderings(dateRange.value.end.value, b);
    }
    if ValidDate(a) && ValidDate(b) {
      ParseRender(a);
      ParseRender(b);
    }
  }

  /** A day on which both ends of the range are the same day is accepted. */
  lemma SingleDayRangeAccepted(d: Date)
    requires ValidDate(d)
    ensures ValidateRange(Some(DateRange(Some(Render(d)), Some(Render(d))))) == Ok(Some(Bounds(d, d)))
  {
    ParseRender(d);
    LexLeReflexive(Key(d));
  }

  /** `WHERE user = ? [AND date_charged BETWEEN ? AND ?]`. */
  predicate Selected(c: Charge, userId: int, bounds: Option<Bounds>)
  {
    c.user == userId &&
    (bounds.Some? ==> NotAfter(bounds.value.start, c.dateCharged) && NotAfter(c.dateCharged, bounds.value.end))
  }

  /** `ORDER BY date_charged, id`. */
  function ChargeKey(c: Charge): seq<int>
  {
    Key(c.dateCharged) + [c.id]
  }

  /** The SELECT of the handler over an in-memory table. */
  function Query(table: seq<Charge>, userId: int, bounds: Option<Bounds>): (r: seq<Charge>)
    ensures forall c :: multiset(r)[c] == if Selected(c, userId, bounds) then multiset(table)[c] else 0
    ensures SortedBy(r, ChargeKey)
  {
    var rows := Filter(table, c => Selected(c, userId, bounds));
    SortBySorted(rows, ChargeKey);
    SortBy(rows, ChargeKey)
  }

  /** A row is returned exactly when it is stored and selected. */
  lemma QueryMembership(table: seq<Charge>, userId: int, bounds: Option<Bounds>, c: Charge)
    ensures c in Query(table, userId, bounds) <==> c in table && Selected(c, userId, bounds)
  {
    assert c in Query(table, userId, bounds) <==> multiset(Query(table, userId, bounds))[c] > 0;
  }

  /** With unique ids the order `(date_charged, id)` is strict. */
  lemma QueryStrictlyOrdered(table: seq<Charge>, userId: int, bounds: Option<Bounds>)
    requires UniqueBy(table, ChargeId)
    ensures StrictlySortedBy(Query(table, userId, bounds), ChargeKey)
  {
    var rows := Filter(table, c => Selected(c, userId, bounds));
    UniqueByNoDuplicates(table, ChargeId);
    assert NoDuplicates(rows) by {
      forall x ensures multiset(rows)[x] <= 1 {
        assert multiset(table)[x] <= 1;
      }
    }
    assert KeyDetermines(rows, ChargeKey) by {
      forall x, y | x in rows && y in rows && ChargeKey(x) == ChargeKey(y)
        ensures x == y
      {
        assert x in multiset(rows) && y in multiset(rows);
        var i :| 0 <= i < |table| && table[i] == x;
        var j :| 0 <= j < |table| && table[j] == y;
        assert ChargeKey(x)[3] == x.id && ChargeKey(y)[3] == y.id;
        assert ChargeId(table[i]) == ChargeId(table[j]);
      }
    }
    SortByStrict(rows, ChargeKey);
  }

  /**
   * The result is determined: any strictly ordered arrangement of the
   * selected rows is the query's result.
   */
  lemma QueryDetermined(table: seq<Charge>, userId: int, bounds: Option<Bounds>, other: seq<Charge>)
    requires UniqueBy(table, ChargeId)
    requires StrictlySortedBy(other, ChargeKey)
    requires forall c :: multiset(other)[c] == if Selected(c, userId, bounds) then multiset(table)[c] else 0
    ensures other == Query(table, userId, bounds)
  {
    QueryStrictlyOrdered(table, userId, bounds);
    StrictlySortedUnique(other, Query(table, userId, bounds), ChargeKey);
  }

  /** A range never returns more rows than the caller owns. */
  lemma RangeWithinCallerCharges(table: seq<Charge>, userId: int, bounds: Option<Bounds>)
    ensures multiset(Query(table, userId, bounds)) <= multiset(Query(table, userId, None))
    ensures |Query(table, userId, bounds)| <= |Query(table, userId, None)|
  {
    var p := c => Selected(c, userId, bounds);
    var q := c => Selected(c, userId, None);
    FilterMonotone(table, p, q);
    assert |Query(table, userId, bounds)| == |multiset(Filter(table, p))| == |Filter(table, p)|;
    assert |Query(table, userId, None)| == |multiset(Filter(table, q))| == |Filter(table, q)|;
  }

  /**
   * The WHERE clause as SQLite evaluates it: on the stored TEXT of
   * `date_charged`, against the bounds as the handler binds them.
   */
  predicate TextSelected(c: Charge, userId: int, start: string, end: string)
  {
    c.user == userId && TextNotAfter(start, Render(c.dateCharged)) && TextNotAfter(Render(c.dateCharged), end)
  }

  /** For stored dates in canonical form, selecting on dates is selecting on their text. */
  lemma SelectedAsText(c: Charge, userId: int, b: Bounds)
    requires ValidDate(c.dateCharged) && ValidDate(b.start) && ValidDate(b.end)
    ensures Selected(c, userId, Some(b)) <==> TextSelected(c, userId, Render(b.start), Render(b.end))
  {
    TextOrderIsDateOrder(b.start, c.dateCharged);
    TextOrderIsDateOrder(c.dateCharged, b.end);
  }

  /**
   * Over a table of real dates, an accepted range selects exactly the rows
   * whose stored text lies between the two strings of the request.
   */
  lemma RangeSelectsAsText(table: seq<Charge>, userId: int, dateRange: Option<DateRange>, b: Bounds)
    requires ValidTable(table)
    requires ValidateRange(dateRange) == Ok(Some(b))
    ensures forall c :: c in table ==>
      (Selected(c, userId, Some(b)) <==> TextSelected(c, userId, dateRange.value.start.value, dateRange.value.end.value))
  {
    AcceptedRanges(dateRange, b.start, b.end);
    forall c | c in table
      ensures Selected(c, userId, Some(b)) <==> TextSelected(c, userId, Render(b.start), Render(b.end))
    {
      SelectedAsText(c, userId, b);
    }
  }

  /** `ORDER BY date_charged, id` as SQLite evaluates it on the stored text. */
  predicate TextOrderLe(a: Charge, b: Charge)
  {
    var ta, tb := Render(a.dateCharged), Render(b.dateCharged);
    (TextNotAfter(ta, tb) && ta != tb) || (ta == tb && a.id <= b.id)
  }

  /** For real dates, the key order of the model is the text order of SQLite. */
  lemma ChargeOrderAsText(a: Charge, b: Charge)
    requires ValidDate(a.dateCharged) && ValidDate(b.dateCharged)
    ensures LexLe(ChargeKey(a), ChargeKey(b)) <==> TextOrderLe(a, b)
  {
    var da, db := a.dateCharged, b.dateCharged;
    LexLeAppend(Key(da), [a.id], Key(db), [b.id]);
    assert [a.id][1..] == [] && [b.id][1..] == [];
    TextOrderIsDateOrder(da, db);
    ParseRender(da);
    ParseRender(db);
    assert Render(da) == Render(db) <==> da == db;
    assert Key(da) == Key(db) <==> da == db;
  }

  /** Over a table of real dates, the query's order is SQLite's order of the stored text. */
  lemma QuerySortedAsText(table: seq<Charge>, userId: int, bounds: Option<Bounds>)
    requires ValidTable(table)
    ensures var r := Query(table, userId, bounds);
      forall i, j :: 0 <= i < j < |r| ==> TextOrderLe(r[i], r[j])
  {
    var r := Query(table, userId, bounds);
    forall i, j | 0 <= i < j < |r|
      ensures TextOrderLe(r[i], r[j])
    {
      assert r[i] in multiset(r) && r[j] in multiset(r);
      assert r[i] in table && r[j] in table;
      ChargeOrderAsText(r[i], r[j]);
    }
  }

  /** `dict(charge)`. */
  function AsRow(c: Charge): ChargeRow
  {
    ChargeRow(c.id, c.user, c.project, c.hours, AsDate(c.dateCharged), c.created)
  }

  /** `str(value)`: a date becomes its ISO text; text stays as it is. */
  function RenderCell(cell: DateCell): DateCell
  {
    match cell
    case AsDate(d) => AsText(Render(d))
    case AsText(_) => cell
  }

  /** The row after `charge['date_charged'] = str(charge['date_charged'])`. */
  function RenderedRow(row: ChargeRow): ChargeRow
  {
    row.(dateCharged := RenderCell(row.dateCharged))
  }

  /** The body of the response for the selected rows. */
  function Response(rows: seq<Charge>): (r: seq<ChargeRow>)
    ensures |r| == |rows|
    ensures forall i :: 0 <= i < |r| ==> r[i].id == rows[i].id && r[i].dateCharged.AsText?
  {
    seq(|rows|, i requires 0 <= i < |rows| => RenderedRow(AsRow(rows[i])))
  }

  /**
   * Every response row carries the stored row's fields, and its date text
   * reads back, under the same parser the range goes through, as the stored date.
   */
  lemma ResponseReadsBack(rows: seq<Charge>, i: int)
    requires 0 <= i < |rows| && ValidDate(rows[i].dateCharged)
    ensures |Response(rows)| == |rows|
    ensures var out, c := Response(rows)[i], rows[i];
      out.id == c.id && out.user == c.user && out.project == c.project &&
      out.hours == c.hours && out.created == c.created &&
      out.dateCharged.AsText? && Parse(out.dateCharged.text) == Some(c.dateCharged)
  {
    ParseRender(rows[i].dateCharged);
  }

  /**
   * The tail of the handler: copy the fetched rows into a list of
   * dictionaries and render each `date_charged` in place.
   */
  method RenderRows(rows: seq<Charge>) returns (out: seq<ChargeRow>)
    ensures out == Response(rows)
  {
    var charges := new ChargeRow[|rows|](i requires 0 <= i < |rows| => AsRow(rows[i]));
    for i := 0 to charges.Length
      invariant forall k :: 0 <= k < i ==> charges[k] == RenderedRow(AsRow(rows[k]))
      invariant forall k :: i <= k < charges.Length ==> charges[k] == AsRow(rows[k])
    {
      charges[i] := charges[i].(dateCharged := RenderCell(charges[i].dateCharged));
    }
    out := charges[..];
  }

  /** The handler: validate the range, run the query, render the rows. */
  method GetCharges(table: seq<Charge>, userId: int, dateRange: Option<DateRange>) returns (r: Result<seq<ChargeRow>>)
    ensures ValidateRange(dateRange).Err? ==> r == Err(ValidateRange(dateRange).error)
    ensures ValidateRange(dateRange).Ok? ==> r == Ok(Response(Query(table, userId, ValidateRange(dateRange).value)))
  {
    var checked := ValidateRange(dateRange);
    if checked.Err? {
      return Err(checked.error);
    }
    var rows := Query(table, userId, checked.value);
    var out := RenderRows(rows);
    return Ok(out);
  }
}
