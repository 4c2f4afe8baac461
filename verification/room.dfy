/** Room queries: create a room with its first pot and member, list rooms,
    join and leave a room, and the room overview with its members, this week's
    per-day totals and the cooking and completed sessions. */
module RoomQuery {
  import opened Seqs
  import opened Store
  import opened Series
  import Text
  import UserQuery

  /** The creation form (the query layer's Room struct; its ID is ignored). */
  datatype RoomForm = RoomForm(name: string, memberLimit: int, privacy: string, category: string)

  datatype RoomDetail = RoomDetail(id: int, name: string, memberCnt: int, memberLimit: int, category: seq<string>)

  datatype RoomUser = RoomUser(id: int, avatar: int)

  /** One day of this week: the caller's total and the whole room's total. */
  datatype RoomDateRecord = RoomDateRecord(date: int, userTotal: int, roomTotal: int)

  datatype RoomOverview = RoomOverview(id: int, currentPot: string, name: string, members: seq<RoomUser>,
                                       week: seq<RoomDateRecord>, level: UserQuery.Level,
                                       cooking: seq<UserQuery.TodayRecord>, done: seq<UserQuery.TodayRecord>)

  /** The separator of the category tags stored in one column. */
  const CategorySeparator := '|'

  // ---------------------------------------------------------------------------
  // Creating a room

  /** Creates room `roomId` (the auto-increment key) with pot `potId` (the
      generated uuid) as its current pot and `userId` as its only member, in
      one transaction. Statements: 0 Begin, 1 the room insert, 2 LastInsertId,
      3 the pot insert, 4 the room_user insert, 5 Commit. Every failure rolls
      back, and so does a pot id or membership that breaks a primary key. */
  function CreateRoom(db: Db, form: RoomForm, userId: int, roomId: int, potId: string, now: int, fault: Fault)
    : (out: (Result<(int, string)>, Db))
    requires roomId !in RoomIds(db)
    ensures out.0.Ok? <==> !fault.Hits(5) && potId !in PotIds(db) && (userId, roomId) !in db.members
    ensures out.0.Err? ==> out == (Err(DbFailure), db)
    ensures out.0.Ok? ==>
              && out.0.value == (roomId, potId)
              && out.1 == db.(rooms := out.1.rooms, pots := out.1.pots, members := out.1.members)
              && out.1.rooms == db.rooms + [Room(roomId, form.name, potId, 1, form.memberLimit, form.privacy,
                                                 form.category, 1, 0, now)]
              && out.1.pots == db.pots + [Pot(potId, roomId)]
              && out.1.members == db.members + {(userId, roomId)}
  {
    if fault.Hits(5) || potId in PotIds(db) || (userId, roomId) in db.members then (Err(DbFailure), db)
    else
      var room := Room(roomId, form.name, potId, 1, form.memberLimit, form.privacy, form.category, 1, 0, now);
      (Ok((roomId, potId)), db.(rooms := db.rooms + [room], pots := db.pots + [Pot(potId, roomId)],
                                members := db.members + {(userId, roomId)}))
  }

  /** A created room is consistent: its count of one matches its one member,
      and the other rooms' members are untouched. */
  lemma CreateRoomPreservesValid(db: Db, form: RoomForm, userId: int, roomId: int, potId: string, now: int,
                                 fault: Fault)
    requires Valid(db)
    requires roomId !in RoomIds(db)
    ensures Valid(CreateRoom(db, form, userId, roomId, potId, now, fault).1)
  {
    var after := CreateRoom(db, form, userId, roomId, potId, now, fault).1;
    if after != db {
      var n := |db.rooms|;
      forall i | 0 <= i < n ensures db.rooms[i].id != roomId {
        assert db.rooms[i] in db.rooms;
      }
      forall i | 0 <= i < |db.pots| ensures db.pots[i].id != potId {
        assert db.pots[i] in db.pots;
      }
      assert after.rooms[n] in after.rooms;
      assert RoomIds(after) == RoomIds(db) + {roomId};
      MembersOfAbsent(db.members, roomId);
      MembersOfInsert(db.members, userId, roomId, roomId);
      forall i | 0 <= i < |after.rooms|
        ensures after.rooms[i].memberCnt == |MembersOf(after.members, after.rooms[i].id)|
      {
        MembersOfInsert(db.members, userId, roomId, after.rooms[i].id);
      }
    }
  }

  /** A room created with a limit of at least one is within its capacity. */
  lemma CreateRoomWithinCapacity(db: Db, form: RoomForm, userId: int, roomId: int, potId: string, now: int,
                                 fault: Fault)
    requires WithinCapacity(db)
    requires form.memberLimit >= 1
    requires roomId !in RoomIds(db)
    ensures WithinCapacity(CreateRoom(db, form, userId, roomId, potId, now, fault).1)
  {
  }

  // ---------------------------------------------------------------------------
  // Listing rooms

  /** A room row as the listings return it: the stored category column is
      split on the separator into its tags. */
  function ToRoomDetail(r: Room): (d: RoomDetail)
    ensures d.id == r.id && d.name == r.name && d.memberCnt == r.memberCnt && d.memberLimit == r.memberLimit
    ensures |d.category| >= 1 && Text.Join(d.category, CategorySeparator) == r.category
    ensures forall i :: 0 <= i < |d.category| ==> CategorySeparator !in d.category[i]
  {
    Text.JoinSplit(r.category, CategorySeparator);
    RoomDetail(r.id, r.name, r.memberCnt, r.memberLimit, Text.Split(r.category, CategorySeparator))
  }

  /** Tags without the separator, stored joined, are listed back as the same tags. */
  lemma CategoryRoundTrip(r: Room, tags: seq<string>)
    requires |tags| >= 1
    requires forall i :: 0 <= i < |tags| ==> CategorySeparator !in tags[i]
    requires r.category == Text.Join(tags, CategorySeparator)
    ensures ToRoomDetail(r).category == tags
  {
    Text.SplitJoin(tags, CategorySeparator);
  }

  /** room INNER JOIN room_user WHERE ru.user_id = userId. */
  function HasMember(members: set<(int, int)>, userId: int): Room -> bool
  {
    (r: Room) => (userId, r.id) in members
  }

  function RoomKey(r: Room): int { r.id }
  function DetailKey(d: RoomDetail): int { d.id }

  /** The rooms the user is a member of. */
  function GetRooms(db: Db, userId: int): (list: seq<RoomDetail>)
    ensures forall r :: r in db.rooms && (userId, r.id) in db.members ==> ToRoomDetail(r) in list
    ensures forall d :: d in list ==> exists r :: r in db.rooms && (userId, r.id) in db.members && d == ToRoomDetail(r)
    ensures UniqueKeys(db) ==> DistinctBy(list, DetailKey)
  {
    SelectMembers(db.rooms, HasMember(db.members, userId), ToRoomDetail);
    SelectDistinct(db.rooms, HasMember(db.members, userId), ToRoomDetail, RoomKey, DetailKey);
    Map(Filter(db.rooms, HasMember(db.members, userId)), ToRoomDetail)
  }

  function IsPublic(r: Room): bool
  {
    r.privacy == "public"
  }

  /** The rooms whose privacy is "public". */
  function GetPublicRooms(db: Db): (list: seq<RoomDetail>)
    ensures forall r :: r in db.rooms && r.privacy == "public" ==> ToRoomDetail(r) in list
    ensures forall d :: d in list ==> exists r :: r in db.rooms && r.privacy == "public" && d == ToRoomDetail(r)
    ensures UniqueKeys(db) ==> DistinctBy(list, DetailKey)
  {
    SelectMembers(db.rooms, IsPublic, ToRoomDetail);
    SelectDistinct(db.rooms, IsPublic, ToRoomDetail, RoomKey, DetailKey);
    Map(Filter(db.rooms, IsPublic), ToRoomDetail)
  }

  /** The creator finds the new room among their rooms, with one member. */
  lemma CreateThenListed(db: Db, form: RoomForm, userId: int, roomId: int, potId: string, now: int)
    requires roomId !in RoomIds(db)
    requires CreateRoom(db, form, userId, roomId, potId, now, Healthy).0.Ok?
    ensures exists d :: d in GetRooms(CreateRoom(db, form, userId, roomId, potId, now, Healthy).1, userId)
              && d.id == roomId && d.memberCnt == 1 && d.memberLimit == form.memberLimit
  {
    var after := CreateRoom(db, form, userId, roomId, potId, now, Healthy).1;
    var r := after.rooms[|db.rooms|];
    assert r in after.rooms;
    assert ToRoomDetail(r) in GetRooms(after, userId);
  }

  // ---------------------------------------------------------------------------
  // Joining and leaving

  /** member_cnt >= member_limit. */
  predicate Full(r: Room)
  {
    r.memberCnt >= r.memberLimit
  }

  /** The checks JoinRoom makes before writing, each a statement of its own:
      0 room exists, 1 already a member, 2 count against limit, 3 Begin. The
      error that ends the call there, or None when it goes on to write. */
  function JoinRefusal(db: Db, roomId: int, userId: int, fault: Fault): (e: Option<Error>)
    ensures e == Some(RoomNotFound) <==> !fault.Hits(0) && roomId !in RoomIds(db)
    ensures e == Some(AlreadyInRoom) <==> !fault.Hits(1) && roomId in RoomIds(db) && (userId, roomId) in db.members
    ensures e == Some(RoomFull) <==>
              && !fault.Hits(2) && roomId in RoomIds(db) && (userId, roomId) !in db.members
              && Full(db.rooms[FindRoom(db.rooms, roomId).value])
    ensures e.None? <==>
              && !fault.Hits(3) && roomId in RoomIds(db) && (userId, roomId) !in db.members
              && !Full(db.rooms[FindRoom(db.rooms, roomId).value])
    ensures e.Some? && e.value !in {RoomNotFound, AlreadyInRoom, RoomFull} ==> e.value == DbFailure
  {
    RoomIdsFound(db, roomId);
    if fault.Hits(0) then Some(DbFailure)
    else match FindRoom(db.rooms, roomId)
      case None => Some(RoomNotFound)
      case Some(k) =>
        if fault.Hits(1) then Some(DbFailure)
        else if (userId, roomId) in db.members then Some(AlreadyInRoom)
        else if fault.Hits(2) then Some(DbFailure)
        else if Full(db.rooms[k]) then Some(RoomFull)
        else if fault.Hits(3) then Some(DbFailure)
        else None
  }

  /** A room id is among the room ids exactly when the row scan finds it. */
  lemma RoomIdsFound(db: Db, roomId: int)
    ensures roomId in RoomIds(db) <==> FindRoom(db.rooms, roomId).Some?
  {
    if roomId in RoomIds(db) {
      var r :| r in db.rooms && r.id == roomId;
      var k :| 0 <= k < |db.rooms| && db.rooms[k] == r;
    }
  }

  /** UPDATE room SET member_cnt = member_cnt + delta WHERE id = roomId. */
  function AddMembers(roomId: int, delta: int): Room -> Room
  {
    (r: Room) => if r.id == roomId then r.(memberCnt := r.memberCnt + delta) else r
  }

  /** The two writes of a join: the room_user row and the incremented count. */
  function JoinWrites(db: Db, roomId: int, userId: int): (after: Db)
    ensures after == db.(rooms := after.rooms, members := after.members)
    ensures after.members == db.members + {(userId, roomId)}
    ensures |after.rooms| == |db.rooms|
    ensures forall i :: 0 <= i < |db.rooms| ==>
              && after.rooms[i].id == db.rooms[i].id
              && (db.rooms[i].id == roomId ==> after.rooms[i] == db.rooms[i].(memberCnt := db.rooms[i].memberCnt + 1))
              && (db.rooms[i].id != roomId ==> after.rooms[i] == db.rooms[i])
  {
    db.(members := db.members + {(userId, roomId)}, rooms := Map(db.rooms, AddMembers(roomId, 1)))
  }

  /** The two writes of a leave: the room_user row removed and the count decremented. */
  function LeaveWrites(db: Db, roomId: int, userId: int): (after: Db)
    ensures after == db.(rooms := after.rooms, members := after.members)
    ensures after.members == db.members - {(userId, roomId)}
    ensures |after.rooms| == |db.rooms|
    ensures forall i :: 0 <= i < |db.rooms| ==>
              && after.rooms[i].id == db.rooms[i].id
              && (db.rooms[i].id == roomId ==> after.rooms[i] == db.rooms[i].(memberCnt := db.rooms[i].memberCnt - 1))
              && (db.rooms[i].id != roomId ==> after.rooms[i] == db.rooms[i])
  {
    db.(members := db.members - {(userId, roomId)}, rooms := Map(db.rooms, AddMembers(roomId, -1)))
  }

  /** Adds the user to the room when it exists, the user is not yet in it and
      it is not full; both writes and the commit (statements 4, 5, 6) happen
      inside the transaction, so a failure there leaves nothing behind. */
  function JoinRoom(db: Db, roomId: int, userId: int, fault: Fault): (out: (Outcome, Db))
    ensures JoinRefusal(db, roomId, userId, fault).Some? ==> out.0 == Fail(JoinRefusal(db, roomId, userId, fault).value)
    ensures out.0 == Pass <==> JoinRefusal(db, roomId, userId, fault).None? && !fault.Hits(6)
    ensures JoinRefusal(db, roomId, userId, fault).None? && out.0.Fail? ==> out.0.error == DbFailure
    ensures out.0.Fail? ==> out.1 == db
    ensures out.0 == Pass ==> out.1 == JoinWrites(db, roomId, userId)
  {
    match JoinRefusal(db, roomId, userId, fault)
    case Some(e) => (Fail(e), db)
    case None => if fault.Hits(6) then (Fail(DbFailure), db) else (Pass, JoinWrites(db, roomId, userId))
  }

  /** JoinRoom as the code runs it: it begins a transaction but issues both
      writes on the connection pool, outside it, so each write commits on its
      own and the rollback after a later failure undoes nothing. */
  function JoinRoomAsWritten(db: Db, roomId: int, userId: int, fault: Fault): (out: (Outcome, Db))
    ensures JoinRefusal(db, roomId, userId, fault).Some? ==> out == (Fail(JoinRefusal(db, roomId, userId, fault).value), db)
    ensures out.0 == Pass <==> JoinRefusal(db, roomId, userId, fault).None? && !fault.Hits(6)
    ensures JoinRefusal(db, roomId, userId, fault).None? && out.0.Fail? ==> out.0.error == DbFailure
    ensures JoinRefusal(db, roomId, userId, fault).None? && fault.Hits(4) ==> out == (Fail(DbFailure), db)
    ensures JoinRefusal(db, roomId, userId, fault).None? && fault.Hits(5) && !fault.Hits(4) ==>
              out.0.Fail? && out.1 == db.(members := db.members + {(userId, roomId)})
    ensures JoinRefusal(db, roomId, userId, fault).None? && fault.Hits(6) && !fault.Hits(5) ==>
              out.0.Fail? && out.1 == JoinWrites(db, roomId, userId)
  {
    match JoinRefusal(db, roomId, userId, fault)
    case Some(e) => (Fail(e), db)
    case None =>
      if fault.Hits(4) then (Fail(DbFailure), db)
      else if fault.Hits(5) then (Fail(DbFailure), db.(members := db.members + {(userId, roomId)}))
      else if fault.Hits(6) then (Fail(DbFailure), JoinWrites(db, roomId, userId))
      else (Pass, JoinWrites(db, roomId, userId))
  }

  /** The checks LeaveRoom makes before writing: 0 room exists, 1 the user is
      a member, 2 Begin. The writes follow as 3 the delete, 4 the decrement
      and 5 Commit. */
  function LeaveRefusal(db: Db, roomId: int, userId: int, fault: Fault): (e: Option<Error>)
    ensures e == Some(RoomNotFound) <==> !fault.Hits(0) && roomId !in RoomIds(db)
    ensures e == Some(NotInRoom) <==> !fault.Hits(1) && roomId in RoomIds(db) && (userId, roomId) !in db.members
    ensures e.None? <==> !fault.Hits(2) && roomId in RoomIds(db) && (userId, roomId) in db.members
    ensures e.Some? && e.value !in {RoomNotFound, NotInRoom} ==> e.value == DbFailure
  {
    RoomIdsFound(db, roomId);
    if fault.Hits(0) then Some(DbFailure)
    else if FindRoom(db.rooms, roomId).None? then Some(RoomNotFound)
    else if fault.Hits(1) then Some(DbFailure)
    else if (userId, roomId) !in db.members then Some(NotInRoom)
    else if fault.Hits(2) then Some(DbFailure)
    else None
  }

  /** Removes the user from the room; the writes and the commit happen inside
      the transaction, so a failure there leaves nothing behind. */
  function LeaveRoom(db: Db, roomId: int, userId: int, fault: Fault): (out: (Outcome, Db))
    ensures LeaveRefusal(db, roomId, userId, fault).Some? ==> out.0 == Fail(LeaveRefusal(db, roomId, userId, fault).value)
    ensures out.0 == Pass <==> LeaveRefusal(db, roomId, userId, fault).None? && !fault.Hits(5)
    ensures LeaveRefusal(db, roomId, userId, fault).None? && out.0.Fail? ==> out.0.error == DbFailure
    ensures out.0.Fail? ==> out.1 == db
    ensures out.0 == Pass ==> out.1 == LeaveWrites(db, roomId, userId)
  {
    match LeaveRefusal(db, roomId, userId, fault)
    case Some(e) => (Fail(e), db)
    case None => if fault.Hits(5) then (Fail(DbFailure), db) else (Pass, LeaveWrites(db, roomId, userId))
  }

  /** LeaveRoom as the code runs it: like JoinRoom, its writes bypass the
      transaction it began. */
  function LeaveRoomAsWritten(db: Db, roomId: int, userId: int, fault: Fault): (out: (Outcome, Db))
    ensures LeaveRefusal(db, roomId, userId, fault).Some? ==> out == (Fail(LeaveRefusal(db, roomId, userId, fault).value), db)
    ensures out.0 == Pass <==> LeaveRefusal(db, roomId, userId, fault).None? && !fault.Hits(5)
    ensures LeaveRefusal(db, roomId, userId, fault).None? && out.0.Fail? ==> out.0.error == DbFailure
    ensures LeaveRefusal(db, roomId, userId, fault).None? && fault.Hits(3) ==> out == (Fail(DbFailure), db)
    ensures LeaveRefusal(db, roomId, userId, fault).None? && fault.Hits(4) && !fault.Hits(3) ==>
              out.0.Fail? && out.1 == db.(members := db.members - {(userId, roomId)})
    ensures LeaveRefusal(db, roomId, userId, fault).None? && fault.Hits(5) && !fault.Hits(4) ==>
              out.0.Fail? && out.1 == LeaveWrites(db, roomId, userId)
  {
    match LeaveRefusal(db, roomId, userId, fault)
    case Some(e) => (Fail(e), db)
    case None =>
      if fault.Hits(3) then (Fail(DbFailure), db)
      else if fault.Hits(4) then (Fail(DbFailure), db.(members := db.members - {(userId, roomId)}))
      else if fault.Hits(5) then (Fail(DbFailure), LeaveWrites(db, roomId, userId))
      else (Pass, LeaveWrites(db, roomId, userId))
  }

  /** Rewriting counts in place keeps the set of room ids. */
  lemma SameRoomIds(db: Db, after: Db)
    requires |after.rooms| == |db.rooms|
    requires forall i :: 0 <= i < |db.rooms| ==> after.rooms[i].id == db.rooms[i].id
    ensures RoomIds(after) == RoomIds(db)
  {
    forall x | x in RoomIds(after) ensures x in RoomIds(db) {
      var r :| r in after.rooms && r.id == x;
      var i :| 0 <= i < |after.rooms| && after.rooms[i] == r;
      assert db.rooms[i] in db.rooms;
    }
    forall x | x in RoomIds(db) ensures x in RoomIds(after) {
      var r :| r in db.rooms && r.id == x;
      var i :| 0 <= i < |db.rooms| && db.rooms[i] == r;
      assert after.rooms[i] in after.rooms;
    }
  }

  /** A join keeps the database consistent: the new member is counted exactly once. */
  lemma JoinRoomPreservesValid(db: Db, roomId: int, userId: int, fault: Fault)
    requires Valid(db)
    ensures Valid(JoinRoom(db, roomId, userId, fault).1)
  {
    var out := JoinRoom(db, roomId, userId, fault);
    if out.0 == Pass {
      var after := out.1;
      SameRoomIds(db, after);
      MembersOfContains(db.members, userId, roomId);
      forall i | 0 <= i < |after.rooms|
        ensures after.rooms[i].memberCnt == |MembersOf(after.members, after.rooms[i].id)|
      {
        MembersOfInsert(db.members, userId, roomId, after.rooms[i].id);
      }
    }
  }

  /** A join never takes a room past its member limit. */
  lemma JoinRoomKeepsCapacity(db: Db, roomId: int, userId: int, fault: Fault)
    requires UniqueKeys(db)
    requires WithinCapacity(db)
    ensures WithinCapacity(JoinRoom(db, roomId, userId, fault).1)
  {
    var out := JoinRoom(db, roomId, userId, fault);
    if out.0 == Pass {
      var k := FindRoom(db.rooms, roomId).value;
      forall i | 0 <= i < |out.1.rooms| ensures out.1.rooms[i].memberCnt <= out.1.rooms[i].memberLimit {
        if db.rooms[i].id == roomId {
          assert i == k;
        }
      }
    }
  }

  /** A leave keeps the database consistent and the rooms within their limits. */
  lemma LeaveRoomPreservesValid(db: Db, roomId: int, userId: int, fault: Fault)
    requires Valid(db)
    ensures Valid(LeaveRoom(db, roomId, userId, fault).1)
    ensures WithinCapacity(db) ==> WithinCapacity(LeaveRoom(db, roomId, userId, fault).1)
  {
    var out := LeaveRoom(db, roomId, userId, fault);
    if out.0 == Pass {
      var after := out.1;
      SameRoomIds(db, after);
      MembersOfContains(db.members, userId, roomId);
      forall p | p in after.members ensures p.1 in RoomIds(after) {
        assert p in db.members;
      }
      forall i | 0 <= i < |after.rooms|
        ensures after.rooms[i].memberCnt == |MembersOf(after.members, after.rooms[i].id)|
      {
        MembersOfRemove(db.members, userId, roomId, after.rooms[i].id);
      }
    }
  }

  /** Leaving right after a join puts the database back as it was. */
  lemma JoinThenLeave(db: Db, roomId: int, userId: int, fault: Fault)
    requires JoinRoom(db, roomId, userId, fault).0 == Pass
    ensures LeaveRoom(JoinRoom(db, roomId, userId, fault).1, roomId, userId, Healthy) == (Pass, db)
  {
    var mid := JoinRoom(db, roomId, userId, fault).1;
    SameRoomIds(db, mid);
    var after := LeaveRoom(mid, roomId, userId, Healthy).1;
    assert after.members == db.members;
    assert after.rooms == db.rooms;
  }

  /** Joining right after a leave puts the database back as it was: the seat
      the user freed is there to take again. */
  lemma LeaveThenJoin(db: Db, roomId: int, userId: int, fault: Fault)
    requires Valid(db)
    requires WithinCapacity(db)
    requires LeaveRoom(db, roomId, userId, fault).0 == Pass
    ensures JoinRoom(LeaveRoom(db, roomId, userId, fault).1, roomId, userId, Healthy) == (Pass, db)
  {
    var mid := LeaveRoom(db, roomId, userId, fault).1;
    SameRoomIds(db, mid);
    var k := FindRoom(db.rooms, roomId).value;
    var k' := FindRoom(mid.rooms, roomId).value;
    assert k' == k;
    var after := JoinRoom(mid, roomId, userId, Healthy).1;
    assert after.members == db.members;
    assert after.rooms == db.rooms;
  }

  /** The code's JoinRoom behaves as intended unless the count update or the
      commit is the first statement to fail; a failed insert writes nothing
      in either. */
  lemma JoinRoomAsWrittenAgrees(db: Db, roomId: int, userId: int, fault: Fault)
    requires !fault.Hits(6) || fault.Hits(4)
    ensures JoinRoomAsWritten(db, roomId, userId, fault) == JoinRoom(db, roomId, userId, fault)
  {
  }

  /** When the count update of an otherwise successful join fails, the code
      reports the failure but keeps the room_user row, so the room's
      member_cnt no longer matches its members. */
  lemma JoinRoomAsWrittenLeavesStaleCount(db: Db, roomId: int, userId: int)
    requires Valid(db)
    requires JoinRefusal(db, roomId, userId, FailsFrom(5)).None?
    ensures JoinRoomAsWritten(db, roomId, userId, FailsFrom(5)).0 == Fail(DbFailure)
    ensures !CountsAgree(JoinRoomAsWritten(db, roomId, userId, FailsFrom(5)).1)
  {
    var after := JoinRoomAsWritten(db, roomId, userId, FailsFrom(5)).1;
    var k := FindRoom(db.rooms, roomId).value;
    MembersOfContains(db.members, userId, roomId);
    MembersOfInsert(db.members, userId, roomId, roomId);
    assert |MembersOf(after.members, roomId)| == after.rooms[k].memberCnt + 1;
  }

  /** When the commit of an otherwise successful join fails, the code reports
      the failure although the user has joined. */
  lemma JoinRoomAsWrittenCommitFailure(db: Db, roomId: int, userId: int)
    requires JoinRefusal(db, roomId, userId, FailsFrom(6)).None?
    ensures JoinRoomAsWritten(db, roomId, userId, FailsFrom(6)).0 == Fail(DbFailure)
    ensures (userId, roomId) in JoinRoomAsWritten(db, roomId, userId, FailsFrom(6)).1.members
    ensures (userId, roomId) !in db.members
  {
  }

  /** One room of limit 2 with member 7, in which user 8 may join. */
  function SampleDb(): Db
  {
    Db([], [Room(1, "kitchen", "pot-1", 1, 2, "public", "", 1, 0, 0)], [Pot("pot-1", 1)], {(7, 1)}, [], [])
  }

  /** The concrete input behind the finding: user 8 joins room 1 and the count
      update fails. The code leaves two members counted as one; the intended
      JoinRoom leaves the database untouched and consistent. */
  lemma JoinStaleCountExample()
    ensures Valid(SampleDb())
    ensures JoinRoomAsWritten(SampleDb(), 1, 8, FailsFrom(5)).0 == Fail(DbFailure)
    ensures !CountsAgree(JoinRoomAsWritten(SampleDb(), 1, 8, FailsFrom(5)).1)
    ensures JoinRoom(SampleDb(), 1, 8, FailsFrom(5)) == (Fail(DbFailure), SampleDb())
  {
    var db := SampleDb();
    assert MembersOf(db.members, 1) == {7} by {
      MembersOfContains(db.members, 7, 1);
    }
    assert RoomIds(db) == {1};
    assert JoinRefusal(db, 1, 8, FailsFrom(5)).None?;
    JoinRoomAsWrittenLeavesStaleCount(db, 1, 8);
  }

  /** The code's LeaveRoom behaves as intended unless the count update or the
      commit is the first statement to fail; a failed delete writes nothing
      in either. */
  lemma LeaveRoomAsWrittenAgrees(db: Db, roomId: int, userId: int, fault: Fault)
    requires !fault.Hits(5) || fault.Hits(3)
    ensures LeaveRoomAsWritten(db, roomId, userId, fault) == LeaveRoom(db, roomId, userId, fault)
  {
  }

  /** When the count update of an otherwise successful leave fails, the code
      reports the failure but has removed the room_user row, so the room's
      member_cnt counts a member it no longer has. */
  lemma LeaveRoomAsWrittenLeavesStaleCount(db: Db, roomId: int, userId: int)
    requires Valid(db)
    requires LeaveRefusal(db, roomId, userId, FailsFrom(4)).None?
    ensures LeaveRoomAsWritten(db, roomId, userId, FailsFrom(4)).0 == Fail(DbFailure)
    ensures !CountsAgree(LeaveRoomAsWritten(db, roomId, userId, FailsFrom(4)).1)
  {
    var after := LeaveRoomAsWritten(db, roomId, userId, FailsFrom(4)).1;
    RoomIdsFound(db, roomId);
    var k := FindRoom(db.rooms, roomId).value;
    MembersOfContains(db.members, userId, roomId);
    MembersOfRemove(db.members, userId, roomId, roomId);
    assert |MembersOf(after.members, roomId)| == after.rooms[k].memberCnt - 1;
  }

  // ---------------------------------------------------------------------------
  // This week's per-day totals

  /** The room's records created in the current week (WEEK(created_at) = WEEK(NOW()) AND room_id = ?). */
  function InRoomThisWeek(cal: Calendar, roomId: int, now: int): Record -> bool
  {
    (r: Record) => cal.weekOf(r.createdAt) == cal.weekOf(now) && r.roomId == roomId
  }

  /** The caller's records among them (... AND user_id = ? AND room_id = ?). */
  function ByUserInRoomThisWeek(cal: Calendar, roomId: int, userId: int, now: int): Record -> bool
  {
    (r: Record) => cal.weekOf(r.createdAt) == cal.weekOf(now) && r.userId == userId && r.roomId == roomId
  }

  function RoomWeek(db: Db, cal: Calendar, roomId: int, now: int): seq<Record>
  {
    Filter(db.records, InRoomThisWeek(cal, roomId, now))
  }

  function UserRoomWeek(db: Db, cal: Calendar, roomId: int, userId: int, now: int): seq<Record>
  {
    Filter(db.records, ByUserInRoomThisWeek(cal, roomId, userId, now))
  }

  /** The length listed for day `d`, if the series lists that day. */
  function Lookup(days: seq<DateRecord>, d: int): (l: Option<int>)
    ensures l.Some? <==> Lists(days, d)
    ensures l.Some? ==> exists i :: 0 <= i < |days| && days[i].date == d && days[i].length == l.value
  {
    if days == [] then None
    else if days[0].date == d then Some(days[0].length)
    else
      var l := Lookup(days[1..], d);
      assert Lists(days, d) ==> Lists(days[1..], d) by {
        if Lists(days, d) {
          var i :| 0 <= i < |days| && days[i].date == d;
          assert days[1..][i - 1].date == d;
        }
      }
      assert l.Some? ==> Lists(days, d) by {
        if l.Some? {
          var i :| 0 <= i < |days[1..]| && days[1..][i].date == d;
          assert days[i + 1].date == d;
        }
      }
      l
  }

  ghost predicate DistinctDates(week: seq<RoomDateRecord>)
  {
    forall i, j :: 0 <= i < j < |week| ==> week[i].date != week[j].date
  }

  /** Sets the caller's total on the first entry for the user row's day,
      leaving the series as it is when no entry has that day. */
  function SetUserTotal(week: seq<RoomDateRecord>, u: DateRecord): (out: seq<RoomDateRecord>)
    ensures |out| == |week|
    ensures forall i :: 0 <= i < |week| ==> out[i].date == week[i].date && out[i].roomTotal == week[i].roomTotal
    ensures forall i :: 0 <= i < |week| && week[i].date != u.date ==> out[i].userTotal == week[i].userTotal
    ensures DistinctDates(week) ==>
              forall i :: 0 <= i < |week| && week[i].date == u.date ==> out[i].userTotal == u.length
  {
    match IndexWhere(week, (w: RoomDateRecord) => w.date == u.date)
    case None => week
    case Some(k) => week[k := week[k].(userTotal := u.length)]
  }

  /** The merge loop: each user row, in order, sets the caller's total of the
      room entry for its day. With distinct days on both sides, every room
      entry ends up with the length of the user row for its day, if any. */
  function MergeUserTotals(week: seq<RoomDateRecord>, users: seq<DateRecord>): (out: seq<RoomDateRecord>)
    requires DistinctDates(week)
    requires forall i, j :: 0 <= i < j < |users| ==> users[i].date < users[j].date
    ensures |out| == |week|
    ensures forall i :: 0 <= i < |week| ==> out[i].date == week[i].date && out[i].roomTotal == week[i].roomTotal
    ensures forall i :: 0 <= i < |week| ==>
              out[i].userTotal == match Lookup(users, week[i].date)
                                  case None => week[i].userTotal
                                  case Some(l) => l
    decreases |users|
  {
    if users == [] then week
    else
      var next := SetUserTotal(week, users[0]);
      var out := MergeUserTotals(next, users[1..]);
      assert forall i :: 0 <= i < |week| && week[i].date == users[0].date ==> Lookup(users[1..], week[i].date).None? by {
        forall i | 0 <= i < |week| && week[i].date == users[0].date
          ensures Lookup(users[1..], week[i].date).None?
        {
          forall j | 0 <= j < |users[1..]| ensures users[1..][j].date != week[i].date {
            assert users[1..][j] == users[j + 1];
          }
        }
      }
      out
  }

  /** A room's series entry before the caller's totals are merged in. */
  function RoomDay(d: DateRecord): RoomDateRecord
  {
    RoomDateRecord(d.date, 0, d.length)
  }

  ghost predicate HasDay(week: seq<RoomDateRecord>, d: int)
  {
    exists i :: 0 <= i < |week| && week[i].date == d
  }

  /** Looking a day up in the grouped series gives that day's total, and a
      day the series does not list has a total of 0. */
  lemma LookupDayTotal(cal: Calendar, rs: seq<Record>, d: int)
    ensures DayTotal(cal, rs, d) == match Lookup(GroupByDate(cal, rs), d)
                                    case None => 0
                                    case Some(l) => l
  {
    if Lookup(GroupByDate(cal, rs), d).None? {
      assert !HasRecordOn(cal, rs, d);
      assert forall k :: 0 <= k < |rs| ==> CreatedDate(cal, rs[k]) != d;
      TotalOfNothing(rs, OnCreatedDate(cal, d));
    }
  }

  /** Entries that keep their dates list the same days. */
  lemma SameDays(out: seq<RoomDateRecord>, days: seq<DateRecord>)
    requires |out| == |days|
    requires forall i :: 0 <= i < |out| ==> out[i].date == days[i].date
    ensures forall d :: HasDay(out, d) <==> Lists(days, d)
  {
    forall d ensures HasDay(out, d) <==> Lists(days, d) {
      if HasDay(out, d) {
        var i :| 0 <= i < |out| && out[i].date == d;
        assert days[i].date == d;
      }
      if Lists(days, d) {
        var i :| 0 <= i < |days| && days[i].date == d;
        assert out[i].date == d;
      }
    }
  }

  /** This week's days on which the room has records, in day order, each with
      the room's total and the caller's own total in this room (0 when the
      caller has no record that day). */
  function RoomWeekInterval(db: Db, cal: Calendar, roomId: int, userId: int, now: int): (out: seq<RoomDateRecord>)
    ensures forall i, j :: 0 <= i < j < |out| ==> out[i].date < out[j].date
    ensures forall d :: HasDay(out, d) <==> HasRecordOn(cal, RoomWeek(db, cal, roomId, now), d)
    ensures forall i :: 0 <= i < |out| ==> out[i].roomTotal == DayTotal(cal, RoomWeek(db, cal, roomId, now), out[i].date)
    ensures forall i :: 0 <= i < |out| ==>
              out[i].userTotal == DayTotal(cal, UserRoomWeek(db, cal, roomId, userId, now), out[i].date)
  {
    var userWeek := UserRoomWeek(db, cal, roomId, userId, now);
    var rooms := GroupByDate(cal, RoomWeek(db, cal, roomId, now));
    var mine := GroupByDate(cal, userWeek);
    var out := MergeUserTotals(Map(rooms, RoomDay), mine);
    SameDays(out, rooms);
    forall i | 0 <= i < |out| ensures out[i].userTotal == DayTotal(cal, userWeek, out[i].date) {
      LookupDayTotal(cal, userWeek, out[i].date);
    }
    out
  }

  /** Every day on which the caller has records in the room this week has an
      entry: the caller's records are among the room's, so merging by date
      drops none of them. */
  lemma UserDaysListed(db: Db, cal: Calendar, roomId: int, userId: int, now: int)
    ensures forall d :: HasRecordOn(cal, UserRoomWeek(db, cal, roomId, userId, now), d) ==>
              HasDay(RoomWeekInterval(db, cal, roomId, userId, now), d)
  {
    var userWeek := UserRoomWeek(db, cal, roomId, userId, now);
    var roomWeek := RoomWeek(db, cal, roomId, now);
    FilterMembers(db.records, InRoomThisWeek(cal, roomId, now));
    FilterMembers(db.records, ByUserInRoomThisWeek(cal, roomId, userId, now));
    forall d | HasRecordOn(cal, userWeek, d) ensures HasRecordOn(cal, roomWeek, d) {
      var k :| 0 <= k < |userWeek| && CreatedDate(cal, userWeek[k]) == d;
      assert userWeek[k] in userWeek;
      var j :| 0 <= j < |roomWeek| && roomWeek[j] == userWeek[k];
    }
  }

  /** With no negative intervals, the caller's total of a day in the room this
      week never exceeds the whole room's total of that day. */
  lemma UserDayWithinRoomDay(db: Db, cal: Calendar, roomId: int, userId: int, now: int, d: int)
    requires NonNegativeIntervals(db.records)
    ensures 0 <= DayTotal(cal, UserRoomWeek(db, cal, roomId, userId, now), d)
              <= DayTotal(cal, RoomWeek(db, cal, roomId, now), d)
  {
    var roomWeek := RoomWeek(db, cal, roomId, now);
    var onDay := OnCreatedDate(cal, d);
    FilterBoth(db.records, InRoomThisWeek(cal, roomId, now), ByUser(userId), ByUserInRoomThisWeek(cal, roomId, userId, now));
    NonNegativeFilter(db.records, InRoomThisWeek(cal, roomId, now));
    FilterCommutes(roomWeek, ByUser(userId), onDay);
    NonNegativeFilter(roomWeek, onDay);
    FilteredTotalBounded(Filter(roomWeek, onDay), ByUser(userId));
  }

  /** With no negative intervals, every entry of the room's week has the
      caller's total between 0 and the room's total. */
  lemma UserTotalWithinRoomTotal(db: Db, cal: Calendar, roomId: int, userId: int, now: int)
    requires NonNegativeIntervals(db.records)
    ensures forall e :: e in RoomWeekInterval(db, cal, roomId, userId, now) ==> 0 <= e.userTotal <= e.roomTotal
  {
    var out := RoomWeekInterval(db, cal, roomId, userId, now);
    forall e | e in out ensures 0 <= e.userTotal <= e.roomTotal {
      var i :| 0 <= i < |out| && out[i] == e;
      UserDayWithinRoomDay(db, cal, roomId, userId, now, e.date);
    }
  }

  // ---------------------------------------------------------------------------
  // The overview

  /** r.room_id = roomId AND r.status = status. */
  function InRoomWithStatus(roomId: int, status: int): Row -> bool
  {
    (row: Row) => row.0.roomId == roomId && row.0.status == status
  }

  /** The room's sessions in one status joined with their ingredient, newest
      first (ORDER BY r.created_at DESC): a reordering of the selected rows. */
  function RoomRows(db: Db, roomId: int, status: int): (rows: seq<Row>)
    ensures DescendingBy(rows, RowCreatedAt)
    ensures forall row :: row in rows <==> row in Joined(db) && row.0.roomId == roomId && row.0.status == status
    ensures multiset(rows) == multiset(Filter(Joined(db), InRoomWithStatus(roomId, status)))
  {
    FilterMembers(Joined(db), InRoomWithStatus(roomId, status));
    SortKeepsElements(Filter(Joined(db), InRoomWithStatus(roomId, status)), RowCreatedAt);
    SortDescendingBy(Filter(Joined(db), InRoomWithStatus(roomId, status)), RowCreatedAt)
  }

  /** room_user INNER JOIN user WHERE ru.room_id = roomId. */
  function InRoom(members: set<(int, int)>, roomId: int): User -> bool
  {
    (u: User) => (u.id, roomId) in members
  }

  function ToRoomUser(u: User): RoomUser
  {
    RoomUser(u.id, u.avatar)
  }

  function UserKey(u: User): int { u.id }
  function MemberKey(m: RoomUser): int { m.id }

  /** The users the room_user table puts in the room, with their avatars. */
  function RoomMembers(db: Db, roomId: int): (list: seq<RoomUser>)
    ensures forall u :: u in db.users && (u.id, roomId) in db.members ==> RoomUser(u.id, u.avatar) in list
    ensures forall m :: m in list ==> exists u :: u in db.users && (u.id, roomId) in db.members && m == RoomUser(u.id, u.avatar)
    ensures UniqueKeys(db) ==> DistinctBy(list, MemberKey)
  {
    SelectMembers(db.users, InRoom(db.members, roomId), ToRoomUser);
    SelectDistinct(db.users, InRoom(db.members, roomId), ToRoomUser, UserKey, MemberKey);
    Map(Filter(db.users, InRoom(db.members, roomId)), ToRoomUser)
  }

  /** The ids of the room's members among `us`. */
  ghost function MemberIds(us: seq<User>, members: set<(int, int)>, roomId: int): set<int>
  {
    set u | u in us && (u.id, roomId) in members :: u.id
  }

  /** The member ids of a non-empty list: those of its tail, plus the head's
      id when the head is a member. */
  lemma MemberIdsCons(us: seq<User>, members: set<(int, int)>, roomId: int)
    requires us != []
    ensures MemberIds(us, members, roomId) ==
              MemberIds(us[1..], members, roomId) + (if (us[0].id, roomId) in members then {us[0].id} else {})
  {
    var all := MemberIds(us, members, roomId);
    var later := MemberIds(us[1..], members, roomId);
    forall x | x in all ensures x in later || ((us[0].id, roomId) in members && x == us[0].id) {
      var u :| u in us && (u.id, roomId) in members && u.id == x;
      var k :| 0 <= k < |us| && us[k] == u;
      if k > 0 {
        assert us[1..][k - 1] == u;
      }
    }
  }

  /** Users with distinct ids: the room's members among them number as many as their ids. */
  lemma {:induction false} CountMembers(us: seq<User>, members: set<(int, int)>, roomId: int)
    requires forall i, j :: 0 <= i < j < |us| ==> us[i].id != us[j].id
    ensures |Filter(us, InRoom(members, roomId))| == |MemberIds(us, members, roomId)|
  {
    if us != [] {
      var rest := us[1..];
      forall i, j | 0 <= i < j < |rest| ensures rest[i].id != rest[j].id {
        assert rest[i] == us[i + 1] && rest[j] == us[j + 1];
      }
      CountMembers(rest, members, roomId);
      MemberIdsCons(us, members, roomId);
      forall u | u in rest ensures u.id != us[0].id {
        var j :| 0 <= j < |rest| && rest[j] == u;
        assert us[j + 1] == u;
      }
      assert us[0].id !in MemberIds(rest, members, roomId);
    }
  }

  /** Every room_user row names an existing user. */
  ghost predicate MembershipsNameUsers(db: Db)
  {
    forall p :: p in db.members ==> p.0 in UserIds(db)
  }

  /** In a consistent database whose memberships name users, the overview
      lists exactly member_cnt members. */
  lemma MembersMatchCount(db: Db, roomId: int)
    requires Valid(db)
    requires MembershipsNameUsers(db)
    requires roomId in RoomIds(db)
    ensures |RoomMembers(db, roomId)| == db.rooms[FindRoom(db.rooms, roomId).value].memberCnt
  {
    CountMembers(db.users, db.members, roomId);
    var ids := MemberIds(db.users, db.members, roomId);
    forall x | x in MembersOf(db.members, roomId) ensures x in ids {
      MembersOfContains(db.members, x, roomId);
      var u :| u in db.users && u.id == x;
    }
    forall x | x in ids ensures x in MembersOf(db.members, roomId) {
      MembersOfContains(db.members, x, roomId);
    }
    assert ids == MembersOf(db.members, roomId);
  }

  /** The overview of an existing room: its row, its level and next unlock,
      its members, this week's totals, and its cooking and completed sessions
      newest first; "room does not exist" otherwise. */
  function GetRoomOverview(db: Db, cal: Calendar, roomId: int, userId: int, now: int): (r: Result<RoomOverview>)
    ensures r.Err? <==> roomId !in RoomIds(db)
    ensures r.Err? ==> r.error == RoomNotFound
    ensures r.Ok? ==> var room := db.rooms[FindRoom(db.rooms, roomId).value];
              && r.value.id == roomId && r.value.currentPot == room.currentPot && r.value.name == room.name
              && r.value.level == UserQuery.Level(room.level, room.totalTime, UserQuery.NextLevel(db, room.level))
              && r.value.members == RoomMembers(db, roomId)
              && r.value.week == RoomWeekInterval(db, cal, roomId, userId, now)
              && r.value.cooking == Map(RoomRows(db, roomId, 0), UserQuery.ToToday)
              && r.value.done == Map(RoomRows(db, roomId, 1), UserQuery.ToToday)
  {
    RoomIdsFound(db, roomId);
    match FindRoom(db.rooms, roomId)
    case None => Err(RoomNotFound)
    case Some(k) =>
      var room := db.rooms[k];
      Ok(RoomOverview(room.id, room.currentPot, room.name, RoomMembers(db, roomId),
                      RoomWeekInterval(db, cal, roomId, userId, now),
                      UserQuery.Level(room.level, room.totalTime, UserQuery.NextLevel(db, room.level)),
                      Map(RoomRows(db, roomId, 0), UserQuery.ToToday), Map(RoomRows(db, roomId, 1), UserQuery.ToToday)))
  }
}
