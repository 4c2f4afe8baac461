/** The record queries' shared building blocks: the record/ingredient join,
    interval sums, the per-day grouping behind the week and month series, and
    newest-first ordering by created_at. */
module Series {
  import opened Seqs
  import opened Store

  /** One row of `record INNER JOIN ingredient`. */
  type Row = (Record, Ingredient)

  function RowCreatedAt(row: Row): int { row.0.createdAt }
  function RowId(row: Row): int { row.0.id }
  function RecordCreatedAt(r: Record): int { r.createdAt }

  /** WHERE user_id = userId. */
  function ByUser(userId: int): Record -> bool
  {
    (r: Record) => r.userId == userId
  }

  /** record INNER JOIN ingredient ON record.ingredient_id = ingredient.id, in
      record order: records whose ingredient is missing drop out. */
  function JoinIngredients(ingredients: seq<Ingredient>, rs: seq<Record>): (rows: seq<Row>)
    ensures |rows| <= |rs|
    ensures forall row :: row in rows <==> row.0 in rs && FindIngredient(ingredients, row.0.ingredientId) == Some(row.1)
    ensures (forall i, j :: 0 <= i < j < |rs| ==> rs[i].id != rs[j].id) ==>
              forall i, j :: 0 <= i < j < |rows| ==> rows[i].0.id != rows[j].0.id
  {
    if rs == [] then []
    else
      assert rs == [rs[0]] + rs[1..];
      var rest := JoinIngredients(ingredients, rs[1..]);
      match FindIngredient(ingredients, rs[0].ingredientId)
      case None => rest
      case Some(ing) => [(rs[0], ing)] + rest
  }

  /** The joined record table of a database. */
  function Joined(db: Db): seq<Row>
  {
    JoinIngredients(db.ingredients, db.records)
  }

  /** With unique record ids, the joined rows have unique record ids. */
  lemma JoinedDistinct(db: Db)
    ensures UniqueKeys(db) ==> DistinctBy(Joined(db), RowId)
  {
  }

  /** SUM(time_interval), with COALESCE(..., 0) for no rows. */
  function TotalInterval(rs: seq<Record>): int
  {
    if rs == [] then 0 else rs[0].interval + TotalInterval(rs[1..])
  }

  ghost predicate NonNegativeIntervals(rs: seq<Record>)
  {
    forall k :: 0 <= k < |rs| ==> rs[k].interval >= 0
  }

  /** With no negative intervals, the records a filter keeps sum to no more than all of them. */
  lemma {:induction false} FilteredTotalBounded(rs: seq<Record>, p: Record -> bool)
    requires NonNegativeIntervals(rs)
    ensures 0 <= TotalInterval(Filter(rs, p)) <= TotalInterval(rs)
  {
    if rs != [] {
      FilteredTotalBounded(rs[1..], p);
    }
  }

  /** A filter keeps the intervals non-negative. */
  lemma NonNegativeFilter(rs: seq<Record>, p: Record -> bool)
    requires NonNegativeIntervals(rs)
    ensures NonNegativeIntervals(Filter(rs, p))
  {
    var fs := Filter(rs, p);
    forall k | 0 <= k < |fs| ensures fs[k].interval >= 0 {
      var j :| 0 <= j < |rs| && rs[j] == fs[k];
    }
  }

  /** A sum over no records is zero. */
  lemma TotalOfNothing(rs: seq<Record>, p: Record -> bool)
    requires forall k :: 0 <= k < |rs| ==> !p(rs[k])
    ensures TotalInterval(Filter(rs, p)) == 0
  {
  }

  /** DATE(created_at). */
  function CreatedDate(cal: Calendar, r: Record): int
  {
    cal.dateOf(r.createdAt)
  }

  /** WHERE DATE(created_at) = d. */
  function OnCreatedDate(cal: Calendar, d: int): Record -> bool
  {
    (r: Record) => CreatedDate(cal, r) == d
  }

  /** SUM(time_interval) of the records created on day `d`. */
  function DayTotal(cal: Calendar, rs: seq<Record>, d: int): int
  {
    TotalInterval(Filter(rs, OnCreatedDate(cal, d)))
  }

  ghost predicate Increasing(ds: seq<int>)
  {
    forall i, j :: 0 <= i < j < |ds| ==> ds[i] < ds[j]
  }

  /** Adds `d` to an increasing sequence of distinct days, keeping it increasing. */
  function InsertDate(d: int, ds: seq<int>): (out: seq<int>)
    requires Increasing(ds)
    ensures Increasing(out)
    ensures forall x :: x in out <==> x == d || x in ds
    ensures |out| > 0 && (out[0] == d || (|ds| > 0 && out[0] == ds[0]))
  {
    if ds == [] || d < ds[0] then [d] + ds
    else if d == ds[0] then ds
    else
      assert ds == [ds[0]] + ds[1..];
      [ds[0]] + InsertDate(d, ds[1..])
  }

  /** The distinct days on which the records were created, earliest first
      (GROUP BY DATE(created_at) returns its groups in key order). */
  function CreatedDates(cal: Calendar, rs: seq<Record>): (ds: seq<int>)
    ensures Increasing(ds)
    ensures forall d :: d in ds <==> HasRecordOn(cal, rs, d)
  {
    if rs == [] then []
    else
      var ds := InsertDate(CreatedDate(cal, rs[0]), CreatedDates(cal, rs[1..]));
      assert forall d :: HasRecordOn(cal, rs, d) ==> d in ds by {
        forall d | HasRecordOn(cal, rs, d) ensures d in ds {
          var k :| 0 <= k < |rs| && CreatedDate(cal, rs[k]) == d;
          if k > 0 {
            assert CreatedDate(cal, rs[1..][k - 1]) == d;
          }
        }
      }
      ds
  }

  /** One entry of a per-day series: the day and its SUM(time_interval). */
  datatype DateRecord = DateRecord(date: int, length: int)

  /** Each given day paired with its total. */
  function Tally(cal: Calendar, rs: seq<Record>, ds: seq<int>): (out: seq<DateRecord>)
    ensures |out| == |ds|
    ensures forall i :: 0 <= i < |ds| ==> out[i].date == ds[i] && out[i].length == DayTotal(cal, rs, ds[i])
  {
    if ds == [] then [] else [DateRecord(ds[0], DayTotal(cal, rs, ds[0]))] + Tally(cal, rs, ds[1..])
  }

  /** Some record was created on day `d`. */
  ghost predicate HasRecordOn(cal: Calendar, rs: seq<Record>, d: int)
  {
    exists k :: 0 <= k < |rs| && CreatedDate(cal, rs[k]) == d
  }

  /** The series has an entry for day `d`. */
  ghost predicate Lists(out: seq<DateRecord>, d: int)
  {
    exists i :: 0 <= i < |out| && out[i].date == d
  }

  /** SELECT DATE(created_at), SUM(time_interval) ... GROUP BY DATE(created_at):
      one entry per day that has records, in day order, with that day's total.
      Days without records are absent, so the series is sparse. */
  function GroupByDate(cal: Calendar, rs: seq<Record>): (out: seq<DateRecord>)
    ensures forall i, j :: 0 <= i < j < |out| ==> out[i].date < out[j].date
    ensures forall d :: Lists(out, d) <==> HasRecordOn(cal, rs, d)
    ensures forall i :: 0 <= i < |out| ==> out[i].length == DayTotal(cal, rs, out[i].date)
  {
    var ds := CreatedDates(cal, rs);
    var out := Tally(cal, rs, ds);
    assert forall d :: Lists(out, d) <==> d in ds;
    out
  }
}
