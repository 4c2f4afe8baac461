/** Record queries: start a cooking session, list a user's or a room's
    sessions, read one session, and complete a session once. */
module RecordQuery {
  import opened Seqs
  import opened Store
  import opened Series

  datatype RecordRequest = RecordRequest(userId: int, roomId: int, potId: int, ingredientId: int)

  /** The completion form; the handler's binding makes every field present. */
  datatype DoneRequest = DoneRequest(image: string, caption: string, timeInterval: int, interrupt: int, status: int)

  datatype RecordOverview = RecordOverview(id: int, interval: int, finishTime: Option<int>, ingredientId: int,
                                           ingredientImage: string, ingredientName: string, status: int)

  datatype RecordDetail = RecordDetail(id: int, image: Option<string>, caption: Option<string>, interval: int,
                                       finishTime: Option<int>, ingredientId: int, ingredientImage: string,
                                       ingredientName: string, interrupt: int, status: int)

  /** The column the overview listing filters on: the callers pass "record.user_id" or "record.room_id". */
  datatype OwnerColumn = UserColumn | RoomColumn

  function Owner(column: OwnerColumn, r: Record): int
  {
    match column
    case UserColumn => r.userId
    case RoomColumn => r.roomId
  }

  /** INSERT INTO record (...) VALUES (?, ?, ?, ?, 0, 0, 0): a fresh session
      with its statement ids at the id `id` the server assigns. Statements:
      0 the insert, 1 LastInsertId. A failure of step 1 comes after the row
      is written, so the row stays although an error is returned. */
  function CreateRecord(db: Db, req: RecordRequest, id: int, now: int, fault: Fault): (out: (Result<int>, Db))
    requires id !in RecordIds(db)
    ensures fault.Hits(0) ==> out == (Err(DbFailure), db)
    ensures out.0.Ok? <==> !fault.Hits(1)
    ensures out.0.Ok? ==> out.0.value == id
    ensures out.0.Err? ==> out.0.error == DbFailure
    ensures !fault.Hits(0) ==>
              && |out.1.records| == |db.records| + 1
              && out.1.records[..|db.records|] == db.records
              && out.1 == db.(records := out.1.records)
              && var r := out.1.records[|db.records|];
                 && r.id == id && r.userId == req.userId && r.roomId == req.roomId
                 && r.potId == req.potId && r.ingredientId == req.ingredientId
                 && r.interval == 0 && r.interrupt == 0 && r.status == 0 && r.createdAt == now
                 && r.image.None? && r.caption.None? && r.finishTime.None?
  {
    if fault.Hits(0) then (Err(DbFailure), db)
    else
      var after := db.(records := db.records + [Record(id, req.userId, req.roomId, req.potId, req.ingredientId,
                                                       None, None, 0, 0, 0, now, None)]);
      if fault.Hits(1) then (Err(DbFailure), after) else (Ok(id), after)
  }

  /** WHERE <column> = owner. */
  function OwnedBy(column: OwnerColumn, owner: int): Row -> bool
  {
    (row: Row) => Owner(column, row.0) == owner
  }

  function ToOverview(row: Row): RecordOverview
  {
    RecordOverview(row.0.id, row.0.interval, row.0.finishTime, row.1.id, row.1.image, row.1.name, row.0.status)
  }

  function OverviewKey(o: RecordOverview): int { o.id }

  /** The sessions of one user or one room joined with their ingredient, each
      once. */
  function GetRecordOverview(db: Db, owner: int, column: OwnerColumn): (list: seq<RecordOverview>)
    ensures forall row :: row in Joined(db) && Owner(column, row.0) == owner ==> ToOverview(row) in list
    ensures forall o :: o in list ==>
              exists row :: row in Joined(db) && Owner(column, row.0) == owner && o == ToOverview(row)
    ensures UniqueKeys(db) ==> DistinctBy(list, OverviewKey)
  {
    SelectMembers(Joined(db), OwnedBy(column, owner), ToOverview);
    JoinedDistinct(db);
    SelectDistinct(Joined(db), OwnedBy(column, owner), ToOverview, RowId, OverviewKey);
    Map(Filter(Joined(db), OwnedBy(column, owner)), ToOverview)
  }

  /** WHERE record.id = id. */
  function RowHasId(id: int): Row -> bool
  {
    (row: Row) => row.0.id == id
  }

  function ToDetail(row: Row): RecordDetail
  {
    RecordDetail(row.0.id, row.0.image, row.0.caption, row.0.interval, row.0.finishTime,
                 row.1.id, row.1.image, row.1.name, row.0.interrupt, row.0.status)
  }

  /** The session with this id joined with its ingredient, as a list. */
  function GetRecordDetail(db: Db, id: int): (list: seq<RecordDetail>)
    ensures forall row :: row in Joined(db) && row.0.id == id ==> ToDetail(row) in list
    ensures forall d :: d in list ==> exists row :: row in Joined(db) && row.0.id == id && d == ToDetail(row)
  {
    SelectMembers(Joined(db), RowHasId(id), ToDetail);
    Map(Filter(Joined(db), RowHasId(id)), ToDetail)
  }

  /** Rows with pairwise distinct record ids hold at most one row with a given id. */
  lemma {:induction false} AtMostOneWithId(rows: seq<Row>, id: int)
    requires forall i, j :: 0 <= i < j < |rows| ==> rows[i].0.id != rows[j].0.id
    ensures |Filter(rows, RowHasId(id))| <= 1
  {
    if rows != [] {
      var rest := rows[1..];
      if rows[0].0.id == id {
        forall x | x in rest ensures !RowHasId(id)(x) {
          var k :| 0 <= k < |rest| && rest[k] == x;
          assert rest[k] == rows[k + 1];
        }
        FilterNone(rest, RowHasId(id));
      } else {
        AtMostOneWithId(rest, id);
      }
    }
  }

  /** With unique record ids the detail query returns at most one row. */
  lemma DetailAtMostOne(db: Db, id: int)
    requires UniqueKeys(db)
    ensures |GetRecordDetail(db, id)| <= 1
  {
    AtMostOneWithId(Joined(db), id);
  }

  /** The session just created reads back with its ingredient, empty fields and status 0. */
  lemma CreateThenDetail(db: Db, req: RecordRequest, id: int, now: int, ing: Ingredient)
    requires id !in RecordIds(db)
    requires FindIngredient(db.ingredients, req.ingredientId) == Some(ing)
    ensures var after := CreateRecord(db, req, id, now, Healthy).1;
            RecordDetail(id, None, None, 0, None, ing.id, ing.image, ing.name, 0, 0) in GetRecordDetail(after, id)
  {
    var after := CreateRecord(db, req, id, now, Healthy).1;
    var r := after.records[|db.records|];
    assert r in after.records;
    assert (r, ing) in Joined(after);
  }

  /** SELECT id FROM record WHERE id = ? AND status = 0 finds a row. */
  ghost predicate Updatable(db: Db, id: int)
  {
    exists r :: r in db.records && r.id == id && r.status == 0
  }

  /** The SET clause of the completion update applied to a row with the given id. */
  function Complete(id: int, req: DoneRequest, now: int): Record -> Record
  {
    (r: Record) =>
      if r.id == id then
        r.(image := Some(req.image), caption := Some(req.caption), interval := req.timeInterval,
           interrupt := req.interrupt, status := req.status, finishTime := Some(now))
      else r
  }

  /** Completes session `id` when it exists and is still cooking. Statements:
      0 the existence check, 1 the UPDATE. */
  function UpdateRecord(db: Db, id: int, req: DoneRequest, now: int, fault: Fault): (out: (Outcome, Db))
    ensures out.0 == Fail(RecordNotFoundOrDone) <==> !fault.Hits(0) && !Updatable(db, id)
    ensures out.0 == Pass <==> !fault.Hits(1) && Updatable(db, id)
    ensures out.0.Fail? ==> out.1 == db
    ensures out.0.Fail? && out.0.error != RecordNotFoundOrDone ==> out.0.error == DbFailure
    ensures out.0 == Pass ==>
              && out.1 == db.(records := out.1.records)
              && |out.1.records| == |db.records|
              && forall i :: 0 <= i < |db.records| ==>
                   var (was, upd) := (db.records[i], out.1.records[i]);
                   && upd.id == was.id && upd.userId == was.userId && upd.roomId == was.roomId
                   && upd.potId == was.potId && upd.ingredientId == was.ingredientId
                   && upd.createdAt == was.createdAt
                   && (was.id != id ==> upd == was)
                   && (was.id == id ==>
                         && upd.image == Some(req.image) && upd.caption == Some(req.caption)
                         && upd.interval == req.timeInterval && upd.interrupt == req.interrupt
                         && upd.status == req.status && upd.finishTime == Some(now))
  {
    if fault.Hits(0) then (Fail(DbFailure), db)
    else if !exists r :: r in db.records && r.id == id && r.status == 0 then (Fail(RecordNotFoundOrDone), db)
    else if fault.Hits(1) then (Fail(DbFailure), db)
    else (Pass, db.(records := Map(db.records, Complete(id, req, now))))
  }

  /** Completing a session keeps every table's keys unique and the room tables as they were. */
  lemma UpdatePreservesValid(db: Db, id: int, req: DoneRequest, now: int, fault: Fault)
    requires Valid(db)
    ensures Valid(UpdateRecord(db, id, req, now, fault).1)
  {
    var after := UpdateRecord(db, id, req, now, fault).1;
    assert RoomIds(after) == RoomIds(db);
  }

  /** A fresh session keeps every table's keys unique and the room tables as they were. */
  lemma CreatePreservesValid(db: Db, req: RecordRequest, id: int, now: int, fault: Fault)
    requires Valid(db)
    requires id !in RecordIds(db)
    ensures Valid(CreateRecord(db, req, id, now, fault).1)
  {
    var after := CreateRecord(db, req, id, now, fault).1;
    if !fault.Hits(0) {
      forall i | 0 <= i < |db.records| ensures db.records[i].id != id {
        assert db.records[i] in db.records;
      }
      assert RoomIds(after) == RoomIds(db);
    }
  }

  /** Every row read back after a completion shows the submitted fields and
      the completion time. */
  lemma UpdatedDetailFields(db: Db, id: int, req: DoneRequest, now: int, fault: Fault)
    requires UpdateRecord(db, id, req, now, fault).0 == Pass
    ensures forall d :: d in GetRecordDetail(UpdateRecord(db, id, req, now, fault).1, id) ==>
              && d.image == Some(req.image) && d.caption == Some(req.caption)
              && d.interval == req.timeInterval && d.interrupt == req.interrupt
              && d.status == req.status && d.finishTime == Some(now)
  {
    var after := UpdateRecord(db, id, req, now, fault).1;
    forall d | d in GetRecordDetail(after, id)
      ensures && d.image == Some(req.image) && d.caption == Some(req.caption)
              && d.interval == req.timeInterval && d.interrupt == req.interrupt
              && d.status == req.status && d.finishTime == Some(now)
    {
      var row :| row in Joined(after) && row.0.id == id && d == ToDetail(row);
      var i :| 0 <= i < |after.records| && after.records[i] == row.0;
    }
  }

  /** A completed session whose ingredient exists reads back. */
  lemma UpdatedDetailListed(db: Db, id: int, req: DoneRequest, now: int, fault: Fault)
    requires UpdateRecord(db, id, req, now, fault).0 == Pass
    requires forall r :: r in db.records && r.id == id ==> FindIngredient(db.ingredients, r.ingredientId).Some?
    ensures GetRecordDetail(UpdateRecord(db, id, req, now, fault).1, id) != []
  {
    var after := UpdateRecord(db, id, req, now, fault).1;
    var r :| r in db.records && r.id == id && r.status == 0;
    var i :| 0 <= i < |db.records| && db.records[i] == r;
    var ing := FindIngredient(db.ingredients, r.ingredientId).value;
    assert after.records[i] in after.records;
    assert (after.records[i], ing) in Joined(after);
  }

  /** A completed session whose ingredient exists reads back, and every row
      read back shows the submitted fields and the completion time. */
  lemma UpdateThenDetail(db: Db, id: int, req: DoneRequest, now: int, fault: Fault)
    requires UpdateRecord(db, id, req, now, fault).0 == Pass
    requires forall r :: r in db.records && r.id == id ==> FindIngredient(db.ingredients, r.ingredientId).Some?
    ensures GetRecordDetail(UpdateRecord(db, id, req, now, fault).1, id) != []
    ensures forall d :: d in GetRecordDetail(UpdateRecord(db, id, req, now, fault).1, id) ==>
              && d.image == Some(req.image) && d.caption == Some(req.caption)
              && d.interval == req.timeInterval && d.interrupt == req.interrupt
              && d.status == req.status && d.finishTime == Some(now)
  {
    UpdatedDetailListed(db, id, req, now, fault);
    UpdatedDetailFields(db, id, req, now, fault);
  }

  /** A session completed with a non-zero status cannot be completed again;
      one "completed" with status 0 stays open. */
  lemma CompleteOnce(db: Db, id: int, req: DoneRequest, now: int, fault: Fault)
    requires UpdateRecord(db, id, req, now, fault).0 == Pass
    ensures req.status != 0 <==> !Updatable(UpdateRecord(db, id, req, now, fault).1, id)
  {
    var after := UpdateRecord(db, id, req, now, fault).1;
    var r :| r in db.records && r.id == id && r.status == 0;
    var i :| 0 <= i < |db.records| && db.records[i] == r;
    assert after.records[i] in after.records;
    if req.status != 0 {
      forall s | s in after.records && s.id == id ensures s.status != 0 {
        var j :| 0 <= j < |after.records| && after.records[j] == s;
      }
    }
  }
}
