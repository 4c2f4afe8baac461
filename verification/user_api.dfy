/** The user handlers' own database work: sign-up with a duplicate-email
    check, login with distinct errors, and the profile with its all-time total
    and its dense seven-day series. */
module UserApi {
  import opened Seqs
  import opened Store
  import opened Series
  import UserQuery

  datatype SignUpRequest = SignUpRequest(avatar: int, email: string, name: string, passwd: string)

  datatype UserInfo = UserInfo(id: int, avatar: int, name: string, level: int, totalTime: int,
                               today: seq<UserQuery.TodayRecord>, week: seq<int>)

  /** Registers a user. Statements: 0 the email lookup, 1 the password hash,
      2 the insert, 3 LastInsertId; `hash` is what the hasher returned and
      `id` the auto-increment key. The lookup counts an email as taken when a
      row has it and it is not empty. A failure of step 3 comes after the row
      is written, so the row stays although an error is returned. */
  function SignUp(db: Db, req: SignUpRequest, hash: string, id: int, now: int, fault: Fault): (out: (Result<int>, Db))
    requires id !in UserIds(db)
    ensures out.0 == Err(EmailExists) <==>
              !fault.Hits(0) && req.email != "" && exists u :: u in db.users && u.email == req.email
    ensures out.0.Ok? <==>
              !fault.Hits(3) && (req.email == "" || forall u :: u in db.users ==> u.email != req.email)
    ensures out.0.Ok? ==> out.0.value == id
    ensures out.0.Err? && out.0.error != EmailExists ==> out.0.error == DbFailure
    ensures out.1 == db || out.1 == db.(users := out.1.users)
    ensures out.1 != db ==>
              && |out.1.users| == |db.users| + 1 && out.1.users[..|db.users|] == db.users
              && var u := out.1.users[|db.users|];
                 && u.id == id && u.avatar == req.avatar && u.email == req.email && u.name == req.name
                 && u.password == hash && u.level == 1 && u.totalTime == 0 && u.createdAt == now
    ensures out.0.Ok? ==> out.1 != db
    ensures out.1 != db <==>
              !fault.Hits(2) && (req.email == "" || forall u :: u in db.users ==> u.email != req.email)
  {
    if fault.Hits(0) then (Err(DbFailure), db)
    else if FindUserByEmail(db.users, req.email).Some? && req.email != "" then (Err(EmailExists), db)
    else if fault.Hits(2) then (Err(DbFailure), db)
    else
      var after := db.(users := db.users + [User(id, req.avatar, req.email, req.name, hash, 1, 0, now)]);
      assert after.users[|db.users|].id == id;
      if fault.Hits(3) then (Err(DbFailure), after) else (Ok(id), after)
  }

  /** Every non-empty email belongs to at most one user. */
  ghost predicate UniqueEmails(db: Db)
  {
    forall i, j :: 0 <= i < j < |db.users| && db.users[i].email != "" ==> db.users[i].email != db.users[j].email
  }

  /** Sign-up never registers a non-empty email twice. */
  lemma SignUpKeepsEmailsUnique(db: Db, req: SignUpRequest, hash: string, id: int, now: int, fault: Fault)
    requires id !in UserIds(db)
    requires UniqueEmails(db)
    ensures UniqueEmails(SignUp(db, req, hash, id, now, fault).1)
  {
    var after := SignUp(db, req, hash, id, now, fault).1;
    if after != db && req.email != "" {
      var n := |db.users|;
      forall i | 0 <= i < n ensures db.users[i].email != req.email {
        assert db.users[i] in db.users;
      }
      assert forall i :: 0 <= i < n ==> after.users[i] == db.users[i];
    }
  }

  /** Signing up twice with the same non-empty email is refused the second time. */
  lemma SignUpTwice(db: Db, req: SignUpRequest, hash: string, id: int, id': int, now: int, now': int)
    requires id !in UserIds(db)
    requires req.email != ""
    requires id' !in UserIds(SignUp(db, req, hash, id, now, Healthy).1)
    requires SignUp(db, req, hash, id, now, Healthy).0.Ok?
    ensures SignUp(SignUp(db, req, hash, id, now, Healthy).1, req, hash, id', now', Healthy).0 == Err(EmailExists)
  {
    var after := SignUp(db, req, hash, id, now, Healthy).1;
    assert after.users[|db.users|] in after.users;
  }

  /** Looks the email up and checks the password against the stored hash.
      Statement 0 is the lookup; `passwordMatches(password, hash)` stands for
      the hash comparison. */
  function Login(db: Db, email: string, password: string, passwordMatches: (string, string) -> bool, fault: Fault)
    : (r: Result<int>)
    ensures r == Err(UserNotFound) <==> !fault.Hits(0) && forall u :: u in db.users ==> u.email != email
    ensures r.Ok? ==> exists u :: u in db.users && u.email == email && u.id == r.value && passwordMatches(password, u.password)
    ensures r == Err(IncorrectPassword) ==>
              exists u :: u in db.users && u.email == email && !passwordMatches(password, u.password)
    ensures r.Err? && r.error !in {UserNotFound, IncorrectPassword} ==> r.error == DbFailure
    ensures r == Err(DbFailure) <==> fault.Hits(0)
    ensures !fault.Hits(0) && FindUserByEmail(db.users, email).Some? ==>
              var u := FindUserByEmail(db.users, email).value;
              r == if passwordMatches(password, u.password) then Ok(u.id) else Err(IncorrectPassword)
  {
    if fault.Hits(0) then Err(DbFailure)
    else match FindUserByEmail(db.users, email)
      case None => Err(UserNotFound)
      case Some(u) => if passwordMatches(password, u.password) then Ok(u.id) else Err(IncorrectPassword)
  }

  /** A user who signed up with a fresh email logs in with the same password
      and gets the new id. */
  lemma SignUpThenLogin(db: Db, req: SignUpRequest, hash: string, id: int, now: int,
                        passwordMatches: (string, string) -> bool)
    requires id !in UserIds(db)
    requires forall u :: u in db.users ==> u.email != req.email
    requires passwordMatches(req.passwd, hash)
    ensures var after := SignUp(db, req, hash, id, now, Healthy).1;
            Login(after, req.email, req.passwd, passwordMatches, Healthy) == Ok(id)
  {
    var after := SignUp(db, req, hash, id, now, Healthy).1;
    var n := |db.users|;
    var found := FindUserByEmail(after.users, req.email).value;
    var k :| 0 <= k < |after.users| && after.users[k] == found
             && forall j :: 0 <= j < k ==> after.users[j].email != req.email;
    assert found == after.users[n];
  }

  /** COALESCE(SUM(time_interval), 0) over all of the user's records. */
  function TotalTime(db: Db, id: int): int
  {
    TotalInterval(Filter(db.records, ByUser(id)))
  }

  /** Finished on day `d` (DATE(finish_time) = d); unfinished records have no day. */
  function FinishedDay(cal: Calendar, d: int): Record -> bool
  {
    (r: Record) => r.finishTime.Some? && cal.dateOf(r.finishTime.value) == d
  }

  /** WHERE user_id = id AND DATE(finish_time) = d. */
  function FinishedOn(cal: Calendar, id: int, d: int): Record -> bool
  {
    (r: Record) => r.userId == id && r.finishTime.Some? && cal.dateOf(r.finishTime.value) == d
  }

  /** COALESCE(SUM(time_interval), 0) of the user's records finished on day `d`. */
  function FinishedTotal(db: Db, cal: Calendar, id: int, d: int): int
  {
    TotalInterval(Filter(db.records, FinishedOn(cal, id, d)))
  }

  /** With no negative intervals, one day's total is at most the all-time total. */
  lemma DayWithinTotal(db: Db, cal: Calendar, id: int, d: int)
    requires NonNegativeIntervals(db.records)
    ensures 0 <= FinishedTotal(db, cal, id, d) <= TotalTime(db, id)
  {
    FilterBoth(db.records, ByUser(id), FinishedDay(cal, d), FinishedOn(cal, id, d));
    NonNegativeFilter(db.records, ByUser(id));
    FilteredTotalBounded(Filter(db.records, ByUser(id)), FinishedDay(cal, d));
  }

  /** The last seven days, oldest first and today last, each with the total
      of the user's records finished that day; days without any give 0. */
  method WeekInterval(db: Db, cal: Calendar, id: int, now: int) returns (week: seq<int>)
    ensures |week| == 7
    ensures forall k :: 0 <= k < 7 ==> week[k] == FinishedTotal(db, cal, id, cal.dateOf(now) - (6 - k))
  {
    week := [];
    var i := 6;
    while i >= 0
      invariant -1 <= i <= 6
      invariant |week| == 6 - i
      invariant forall k :: 0 <= k < |week| ==> week[k] == FinishedTotal(db, cal, id, cal.dateOf(now) - (6 - k))
    {
      var sum := FinishedTotal(db, cal, id, cal.dateOf(now) - i);
      week := week + [sum];
      i := i - 1;
    }
  }

  /** The profile of an existing user; the error of the failed row scan otherwise. */
  method GetProfile(db: Db, cal: Calendar, id: int, now: int) returns (r: Result<UserInfo>)
    ensures r.Err? <==> FindUser(db.users, id).None?
    ensures r.Err? ==> r.error == NoRows
    ensures r.Ok? ==> var u := FindUser(db.users, id).value;
              && r.value.id == u.id && r.value.avatar == u.avatar && r.value.name == u.name
              && r.value.level == u.level && r.value.totalTime == TotalTime(db, id)
              && r.value.today == UserQuery.Today(db, cal, id, now)
              && |r.value.week| == 7
              && forall k :: 0 <= k < 7 ==> r.value.week[k] == FinishedTotal(db, cal, id, cal.dateOf(now) - (6 - k))
    ensures r.Ok? && NonNegativeIntervals(db.records) ==>
              forall k :: 0 <= k < |r.value.week| ==> 0 <= r.value.week[k] <= r.value.totalTime
  {
    match FindUser(db.users, id) {
      case None =>
        r := Err(NoRows);
      case Some(u) =>
        var week := WeekInterval(db, cal, id, now);
        if NonNegativeIntervals(db.records) {
          forall k | 0 <= k < 7 ensures 0 <= week[k] <= TotalTime(db, id) {
            DayWithinTotal(db, cal, id, cal.dateOf(now) - (6 - k));
          }
        }
        r := Ok(UserInfo(u.id, u.avatar, u.name, u.level, TotalTime(db, id), UserQuery.Today(db, cal, id, now), week));
    }
  }
}
