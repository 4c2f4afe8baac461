/** User queries of the query layer: sign-up and login, the profile and the
    overview with its level, today list and sparse week and month series. */
module UserQuery {
  import opened Seqs
  import opened Store
  import opened Series
  import Text
  import IngredientQuery

  /** The sign-up form (the query layer's User struct; its ID is ignored). */
  datatype UserForm = UserForm(name: string, avatar: int, email: string, password: string)

  datatype TodayRecord = TodayRecord(recordId: int, image: string)
  datatype Level = Level(level: int, totalTime: int, next: string)
  datatype UserStatus = UserStatus(code: int, ingredient: string)
  datatype UserProfile = UserProfile(id: int, name: string, avatar: int, cookingTime: int,
                                     status: UserStatus, done: seq<string>)
  datatype UserOverview = UserOverview(id: int, level: Level, today: seq<TodayRecord>,
                                       week: seq<DateRecord>, month: seq<DateRecord>)

  /** SELECT EXISTS(... FROM user WHERE email = ?). */
  function CheckEmail(db: Db, email: string): (b: bool)
    ensures b <==> exists u :: u in db.users && u.email == email
  {
    FindUserByEmail(db.users, email).Some?
  }

  /** SELECT EXISTS(... FROM user WHERE id = ?). */
  function CheckUser(db: Db, id: int): (b: bool)
    ensures b <==> id in UserIds(db)
  {
    FindUser(db.users, id).Some?
  }

  /** Inserts the user at level 1 with no cooking time. `hash` is what the
      password hasher returned for `user.password`; `id` is the auto-increment key. */
  function SignUp(db: Db, user: UserForm, hash: string, id: int, now: int): (out: (Result<int>, Db))
    requires id !in UserIds(db)
    ensures out.0 == Ok(id)
    ensures out.1 == db.(users := out.1.users)
    ensures |out.1.users| == |db.users| + 1 && out.1.users[..|db.users|] == db.users
    ensures var u := out.1.users[|db.users|];
              && u.id == id && u.avatar == user.avatar && u.email == user.email && u.name == user.name
              && u.password == hash && u.level == 1 && u.totalTime == 0 && u.createdAt == now
  {
    (Ok(id), db.(users := db.users + [User(id, user.avatar, user.email, user.name, hash, 1, 0, now)]))
  }

  /** The stored id when the email is known and `passwordMatches(input, stored hash)`
      holds, and -1 (with no error) otherwise. */
  function Login(db: Db, email: string, password: string, passwordMatches: (string, string) -> bool)
    : (r: Result<int>)
    ensures r.Ok?
    ensures FindUserByEmail(db.users, email).None? ==> r.value == -1
    ensures FindUserByEmail(db.users, email).Some? ==>
              var u := FindUserByEmail(db.users, email).value;
              r.value == if passwordMatches(password, u.password) then u.id else -1
    ensures r.value != -1 ==>
              exists u :: u in db.users && u.email == email && u.id == r.value && passwordMatches(password, u.password)
  {
    match FindUserByEmail(db.users, email)
    case None => Ok(-1)
    case Some(u) => if passwordMatches(password, u.password) then Ok(u.id) else Ok(-1)
  }

  /** A sign-up with a fresh email makes both existence checks true and lets
      the new user log in with the password whose hash was stored. */
  lemma SignUpThenLogin(db: Db, user: UserForm, hash: string, id: int, now: int,
                        passwordMatches: (string, string) -> bool)
    requires id !in UserIds(db)
    requires !CheckEmail(db, user.email)
    requires passwordMatches(user.password, hash)
    ensures var after := SignUp(db, user, hash, id, now).1;
            CheckEmail(after, user.email) && CheckUser(after, id)
            && Login(after, user.email, user.password, passwordMatches) == Ok(id)
  {
    var after := SignUp(db, user, hash, id, now).1;
    var n := |db.users|;
    assert after.users[n].email == user.email;
    assert after.users[n].id == id;
    var found := FindUserByEmail(after.users, user.email).value;
    var k :| 0 <= k < |after.users| && after.users[k] == found
             && forall j :: 0 <= j < k ==> after.users[j].email != user.email;
    assert found == after.users[n];
  }

  /** Records of user `id` still cooking (status 0). */
  function Active(id: int): Record -> bool
  {
    (r: Record) => r.userId == id && r.status == 0
  }

  function RowOfUser(id: int): Row -> bool
  {
    (row: Row) => row.0.userId == id
  }

  function DoneRowOfUser(id: int): Row -> bool
  {
    (row: Row) => row.0.userId == id && row.0.status == 1
  }

  function RowName(row: Row): string { row.1.name }

  /** Seconds since the user's newest still-cooking record was created, or 0
      when nothing is cooking. */
  function CookingTime(db: Db, id: int, now: int): (t: int)
    ensures (forall r :: r in db.records ==> !Active(id)(r)) ==> t == 0
    ensures (exists r :: r in db.records && Active(id)(r)) ==>
              exists a :: a in db.records && Active(id)(a) && t == now - a.createdAt
                && forall r :: r in db.records && Active(id)(r) ==> r.createdAt <= a.createdAt
  {
    LargestOfFilter(db.records, Active(id), RecordCreatedAt);
    var newest := Largest(Filter(db.records, Active(id)), RecordCreatedAt);
    if newest.None? then 0
    else
      var a := newest.value;
      assert a in db.records && Active(id)(a);
      now - a.createdAt
  }

  /** Status code and ingredient name of the user's newest record in any state,
      or (0, "") when the user has none. */
  function Status(db: Db, id: int): (s: UserStatus)
    ensures (forall row :: row in Joined(db) ==> row.0.userId != id) ==> s == UserStatus(0, "")
    ensures (exists row :: row in Joined(db) && row.0.userId == id) ==>
              exists row :: row in Joined(db) && row.0.userId == id
                && s == UserStatus(row.0.status, row.1.name)
                && forall other :: other in Joined(db) && other.0.userId == id ==> other.0.createdAt <= row.0.createdAt
  {
    LargestOfFilter(Joined(db), RowOfUser(id), RowCreatedAt);
    match Largest(Filter(Joined(db), RowOfUser(id)), RowCreatedAt)
    case None => UserStatus(0, "")
    case Some(row) => UserStatus(row.0.status, row.1.name)
  }

  /** The user's five newest completed records joined with their ingredient
      (status = 1 ORDER BY created_at DESC LIMIT 5). */
  function LatestDone(db: Db, id: int): (rows: seq<Row>)
    ensures var done := Filter(Joined(db), DoneRowOfUser(id));
            |rows| == (if |done| < 5 then |done| else 5) && multiset(rows) <= multiset(done)
    ensures DescendingBy(rows, RowCreatedAt)
    ensures forall row :: row in rows ==> row in Joined(db) && row.0.userId == id && row.0.status == 1
    ensures forall row :: row in Joined(db) && row.0.userId == id && row.0.status == 1 ==>
              row in rows || (|rows| == 5 && row.0.createdAt <= rows[4].0.createdAt)
  {
    TopOfFilter(Joined(db), DoneRowOfUser(id), RowCreatedAt, 5);
    TopBy(Filter(Joined(db), DoneRowOfUser(id)), RowCreatedAt, 5)
  }

  /** The profile of an existing user; the error of the failed row scan otherwise. */
  function GetProfile(db: Db, id: int, now: int): (r: Result<UserProfile>)
    ensures r.Err? <==> FindUser(db.users, id).None?
    ensures r.Err? ==> r.error == NoRows
    ensures r.Ok? ==> var u := FindUser(db.users, id).value;
              && r.value.id == u.id && r.value.name == u.name && r.value.avatar == u.avatar
              && r.value.cookingTime == CookingTime(db, id, now)
              && r.value.status == Status(db, id)
              && r.value.done == Map(LatestDone(db, id), RowName)
  {
    match FindUser(db.users, id)
    case None => Err(NoRows)
    case Some(u) =>
      Ok(UserProfile(u.id, u.name, u.avatar, CookingTime(db, id, now), Status(db, id), Map(LatestDone(db, id), RowName)))
  }

  /** The requirement an ingredient carries to be unlocked at level `n`: "level<n>". */
  function LevelTag(n: int): string
  {
    "level" + Text.IntToString(n)
  }

  /** The image of the first ingredient that unlocks at level `level + 1`, or ""
      when no ingredient does (no error). */
  function NextLevel(db: Db, level: int): (image: string)
    ensures (forall i :: 0 <= i < |db.ingredients| ==> db.ingredients[i].requirement != LevelTag(level + 1)) ==> image == ""
    ensures forall i :: 0 <= i < |db.ingredients| && db.ingredients[i].requirement == LevelTag(level + 1)
              && (forall j :: 0 <= j < i ==> db.ingredients[j].requirement != LevelTag(level + 1))
              ==> image == db.ingredients[i].image
  {
    match IndexWhere(db.ingredients, (ing: Ingredient) => ing.requirement == LevelTag(level + 1))
    case None => ""
    case Some(k) => db.ingredients[k].image
  }

  /** Adding the first ingredient tagged for level `level + 1` makes it the
      next unlock; when the insert fails there is still none. */
  lemma AddIngredientUnlocksLevel(db: Db, name: string, image: string, interval: int, level: int, id: int,
                                  fault: Fault)
    requires id !in IngredientIds(db)
    requires forall i :: 0 <= i < |db.ingredients| ==> db.ingredients[i].requirement != LevelTag(level + 1)
    ensures NextLevel(IngredientQuery.AddIngredient(db, name, image, interval, LevelTag(level + 1), id, fault).1, level)
         == if fault.Hits(0) then "" else image
  {
    var after := IngredientQuery.AddIngredient(db, name, image, interval, LevelTag(level + 1), id, fault).1;
    if !fault.Hits(0) {
      assert forall j :: 0 <= j < |db.ingredients| ==> after.ingredients[j] == db.ingredients[j];
    }
  }

  /** Adding an ingredient tagged for another level leaves this level's next unlock as it was. */
  lemma AddIngredientOtherLevel(db: Db, name: string, image: string, interval: int, tagLevel: int, level: int,
                                id: int, fault: Fault)
    requires id !in IngredientIds(db)
    requires tagLevel != level + 1
    ensures NextLevel(IngredientQuery.AddIngredient(db, name, image, interval, LevelTag(tagLevel), id, fault).1, level)
         == NextLevel(db, level)
  {
    var after := IngredientQuery.AddIngredient(db, name, image, interval, LevelTag(tagLevel), id, fault).1;
    if !fault.Hits(0) {
      Text.TagInjective("level", tagLevel, level + 1);
      assert forall j :: 0 <= j < |db.ingredients| ==> after.ingredients[j] == db.ingredients[j];
      assert after.ingredients[|db.ingredients|].requirement != LevelTag(level + 1);
    }
  }

  /** Records of user `id` that finished today (DATE(finish_time) = CURDATE()). */
  function FinishedToday(cal: Calendar, id: int, now: int): Row -> bool
  {
    (row: Row) => row.0.userId == id && row.0.finishTime.Some? && cal.dateOf(row.0.finishTime.value) == cal.dateOf(now)
  }

  function ToToday(row: Row): TodayRecord
  {
    TodayRecord(row.0.id, row.1.image)
  }

  function TodayKey(t: TodayRecord): int { t.recordId }

  /** Today's finished records of the user, each once, with its ingredient's image. */
  function Today(db: Db, cal: Calendar, id: int, now: int): (out: seq<TodayRecord>)
    ensures forall row :: row in Joined(db) && FinishedToday(cal, id, now)(row) ==> ToToday(row) in out
    ensures forall t :: t in out ==> exists row :: row in Joined(db) && FinishedToday(cal, id, now)(row) && t == ToToday(row)
    ensures UniqueKeys(db) ==> DistinctBy(out, TodayKey)
  {
    SelectMembers(Joined(db), FinishedToday(cal, id, now), ToToday);
    JoinedDistinct(db);
    SelectDistinct(Joined(db), FinishedToday(cal, id, now), ToToday, RowId, TodayKey);
    Map(Filter(Joined(db), FinishedToday(cal, id, now)), ToToday)
  }

  /** The user's records created in the current week, by WEEK() number. */
  function CreatedThisWeek(cal: Calendar, id: int, now: int): Record -> bool
  {
    (r: Record) => cal.weekOf(r.createdAt) == cal.weekOf(now) && r.userId == id
  }

  /** The user's records created in the current month, by MONTH() number. */
  function CreatedThisMonth(cal: Calendar, id: int, now: int): Record -> bool
  {
    (r: Record) => cal.monthOf(r.createdAt) == cal.monthOf(now) && r.userId == id
  }

  /** One entry per day of this week on which the user created records, with
      the sum of their intervals; days without records are absent. */
  function WeekInterval(db: Db, cal: Calendar, id: int, now: int): (out: seq<DateRecord>)
    ensures forall i, j :: 0 <= i < j < |out| ==> out[i].date < out[j].date
    ensures forall d :: Lists(out, d) <==> HasRecordOn(cal, Filter(db.records, CreatedThisWeek(cal, id, now)), d)
    ensures forall i :: 0 <= i < |out| ==>
              out[i].length == DayTotal(cal, Filter(db.records, CreatedThisWeek(cal, id, now)), out[i].date)
  {
    GroupByDate(cal, Filter(db.records, CreatedThisWeek(cal, id, now)))
  }

  /** One entry per day of this month on which the user created records, with
      the sum of their intervals; days without records are absent. */
  function MonthInterval(db: Db, cal: Calendar, id: int, now: int): (out: seq<DateRecord>)
    ensures forall i, j :: 0 <= i < j < |out| ==> out[i].date < out[j].date
    ensures forall d :: Lists(out, d) <==> HasRecordOn(cal, Filter(db.records, CreatedThisMonth(cal, id, now)), d)
    ensures forall i :: 0 <= i < |out| ==>
              out[i].length == DayTotal(cal, Filter(db.records, CreatedThisMonth(cal, id, now)), out[i].date)
  {
    GroupByDate(cal, Filter(db.records, CreatedThisMonth(cal, id, now)))
  }

  /** The overview of an existing user; "user <id> does not exist" otherwise. */
  function GetOverview(db: Db, cal: Calendar, id: int, now: int): (r: Result<UserOverview>)
    ensures r.Err? <==> FindUser(db.users, id).None?
    ensures r.Err? ==> r.error == UserDoesNotExist(id)
    ensures r.Ok? ==> var u := FindUser(db.users, id).value;
              && r.value.id == u.id
              && r.value.level == Level(u.level, u.totalTime, NextLevel(db, u.level))
              && r.value.today == Today(db, cal, id, now)
              && r.value.week == WeekInterval(db, cal, id, now)
              && r.value.month == MonthInterval(db, cal, id, now)
  {
    match FindUser(db.users, id)
    case None => Err(UserDoesNotExist(id))
    case Some(u) =>
      Ok(UserOverview(u.id, Level(u.level, u.totalTime, NextLevel(db, u.level)),
                      Today(db, cal, id, now), WeekInterval(db, cal, id, now), MonthInterval(db, cal, id, now)))
  }
}
