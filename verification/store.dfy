/** The database the query layer reads and writes, as one immutable value, with
    the result and error shapes its operations return and the consistency
    conditions its tables keep. */
module Store {
  import opened Seqs

  /** The failures the query layer distinguishes. `DbFailure` stands for any
      driver or server error that the code passes through unclassified. */
  datatype Error =
    | RoomNotFound
    | AlreadyInRoom
    | RoomFull
    | NotInRoom
    | RecordNotFoundOrDone
    | UserDoesNotExist(id: int)
    | NoRows
    | EmailExists
    | UserNotFound
    | IncorrectPassword
    | DbFailure

  /** A value, or the error returned in its place (the Go code pairs every error
      with a sentinel value such as -1 or "", which this shape leaves out). */
  datatype Result<T> = Ok(value: T) | Err(error: Error)

  /** The result of an operation that returns only an error. */
  datatype Outcome = Pass | Fail(error: Error)

  /** Which database statements of one call fail: none, or every statement from
      number `from` on, counting from 0 in the order the call issues them
      (Begin and Commit count as statements). */
  datatype Fault = Healthy | FailsFrom(from: nat) {
    predicate Hits(step: nat)
    {
      FailsFrom? && from <= step
    }
  }

  /** The SQL server's DATE(), WEEK() and MONTH() of a timestamp in seconds.
      Dates are day numbers, so DATE_SUB(d, INTERVAL i DAY) is d - i. WEEK and
      MONTH are the server's week-of-year and month-of-year numbers. */
  datatype Calendar = Calendar(dateOf: int -> int, weekOf: int -> int, monthOf: int -> int)

  datatype User = User(id: int, avatar: int, email: string, name: string, password: string,
                       level: int, totalTime: int, createdAt: int)

  datatype Room = Room(id: int, name: string, currentPot: string, memberCnt: int, memberLimit: int,
                       privacy: string, category: string, level: int, totalTime: int, createdAt: int)

  datatype Pot = Pot(id: string, roomId: int)

  datatype Ingredient = Ingredient(id: int, name: string, image: string, interval: int, requirement: string)

  /** A cooking session. `image`, `caption` and `finishTime` are NULL until it is completed. */
  datatype Record = Record(id: int, userId: int, roomId: int, potId: int, ingredientId: int,
                           image: Option<string>, caption: Option<string>, interval: int,
                           interrupt: int, status: int, createdAt: int, finishTime: Option<int>)

  /** Tables in primary-key (insertion) order; `members` is the room_user table
      of (user id, room id) pairs. */
  datatype Db = Db(users: seq<User>, rooms: seq<Room>, pots: seq<Pot>, members: set<(int, int)>,
                   ingredients: seq<Ingredient>, records: seq<Record>)

  function UserIds(db: Db): set<int> { set u | u in db.users :: u.id }
  function RoomIds(db: Db): set<int> { set r | r in db.rooms :: r.id }
  function PotIds(db: Db): set<string> { set p | p in db.pots :: p.id }
  function IngredientIds(db: Db): set<int> { set i | i in db.ingredients :: i.id }
  function RecordIds(db: Db): set<int> { set r | r in db.records :: r.id }

  /** Position of the room row with this id (SELECT ... FROM room WHERE id = ?). */
  function FindRoom(rooms: seq<Room>, id: int): (k: Option<nat>)
    ensures k.Some? ==> k.value < |rooms| && rooms[k.value].id == id
    ensures k.None? <==> forall j :: 0 <= j < |rooms| ==> rooms[j].id != id
  {
    IndexWhere(rooms, (r: Room) => r.id == id)
  }

  /** The first user row with this id. */
  function FindUser(users: seq<User>, id: int): (u: Option<User>)
    ensures u.Some? ==> u.value in users && u.value.id == id
    ensures u.None? <==> forall j :: 0 <= j < |users| ==> users[j].id != id
  {
    match IndexWhere(users, (u: User) => u.id == id)
    case None => None
    case Some(k) => Some(users[k])
  }

  /** The first user row with this email (QueryRow keeps the first row). */
  function FindUserByEmail(users: seq<User>, email: string): (u: Option<User>)
    ensures u.Some? ==> u.value in users && u.value.email == email
    ensures u.Some? ==> exists k :: 0 <= k < |users| && users[k] == u.value && forall j :: 0 <= j < k ==> users[j].email != email
    ensures u.None? <==> forall j :: 0 <= j < |users| ==> users[j].email != email
  {
    match IndexWhere(users, (u: User) => u.email == email)
    case None => None
    case Some(k) => Some(users[k])
  }

  /** The ingredient a record's ingredient_id refers to: the INNER JOIN partner. */
  function FindIngredient(ingredients: seq<Ingredient>, id: int): (i: Option<Ingredient>)
    ensures i.Some? ==> i.value in ingredients && i.value.id == id
    ensures i.None? <==> forall j :: 0 <= j < |ingredients| ==> ingredients[j].id != id
  {
    match IndexWhere(ingredients, (i: Ingredient) => i.id == id)
    case None => None
    case Some(k) => Some(ingredients[k])
  }

  /** Users in the room according to the room_user table. */
  function MembersOf(members: set<(int, int)>, roomId: int): set<int>
  {
    set p | p in members && p.1 == roomId :: p.0
  }

  /** Primary keys are unique in every table. */
  ghost predicate UniqueKeys(db: Db)
  {
    && (forall i, j :: 0 <= i < j < |db.users| ==> db.users[i].id != db.users[j].id)
    && (forall i, j :: 0 <= i < j < |db.rooms| ==> db.rooms[i].id != db.rooms[j].id)
    && (forall i, j :: 0 <= i < j < |db.pots| ==> db.pots[i].id != db.pots[j].id)
    && (forall i, j :: 0 <= i < j < |db.ingredients| ==> db.ingredients[i].id != db.ingredients[j].id)
    && (forall i, j :: 0 <= i < j < |db.records| ==> db.records[i].id != db.records[j].id)
  }

  /** Every room_user row names an existing room. */
  ghost predicate MembershipsNameRooms(db: Db)
  {
    forall p :: p in db.members ==> p.1 in RoomIds(db)
  }

  /** The denormalised member_cnt of every room equals its number of room_user rows. */
  ghost predicate CountsAgree(db: Db)
  {
    forall i :: 0 <= i < |db.rooms| ==> db.rooms[i].memberCnt == |MembersOf(db.members, db.rooms[i].id)|
  }

  /** No room has more members than its member_limit. */
  ghost predicate WithinCapacity(db: Db)
  {
    forall i :: 0 <= i < |db.rooms| ==> db.rooms[i].memberCnt <= db.rooms[i].memberLimit
  }

  /** The consistency the room and record operations keep. */
  ghost predicate Valid(db: Db)
  {
    UniqueKeys(db) && MembershipsNameRooms(db) && CountsAgree(db)
  }

  /** Adding the pair (u, r) to room_user adds u to room r and touches no other room. */
  lemma MembersOfInsert(members: set<(int, int)>, u: int, r: int, other: int)
    ensures MembersOf(members + {(u, r)}, other)
         == if other == r then MembersOf(members, other) + {u} else MembersOf(members, other)
  {
  }

  /** Removing the pair (u, r) removes only u, and only from room r. */
  lemma MembersOfRemove(members: set<(int, int)>, u: int, r: int, other: int)
    ensures MembersOf(members - {(u, r)}, other)
         == if other == r then MembersOf(members, other) - {u} else MembersOf(members, other)
  {
    var lhs := MembersOf(members - {(u, r)}, other);
    var rhs := if other == r then MembersOf(members, other) - {u} else MembersOf(members, other);
    forall x | x in rhs ensures x in lhs {
      assert (x, other) in members - {(u, r)};
    }
  }

  /** A room with no room_user rows has no members. */
  lemma MembersOfAbsent(members: set<(int, int)>, r: int)
    requires forall p :: p in members ==> p.1 != r
    ensures MembersOf(members, r) == {}
  {
  }

  /** The pair (u, r) is in room_user exactly when u is among room r's members. */
  lemma MembersOfContains(members: set<(int, int)>, u: int, r: int)
    ensures (u, r) in members <==> u in MembersOf(members, r)
  {
    if u in MembersOf(members, r) {
      var p :| p in members && p.1 == r && p.0 == u;
      assert p == (u, r);
    }
  }
}
