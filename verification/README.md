# Pot Together query layer in Dafny

Pot Together is a backend where users cook "ingredients" together in shared
rooms. Each room has a current pot. A cooking session is a *record*: it starts
with status 0 and is completed once with a picture, a caption, its length and a
final status. Users and rooms show per-day totals, today's completions and the
next ingredient their level unlocks.

This project models the MariaDB query layer behind that: the room, record,
user and ingredient queries, plus the user handlers' own sign-up, login and
profile queries. The whole database is one immutable value, `Store.Db`. Each
table is a sequence in primary-key order. `room_user` is a set of
(user id, room id) pairs. Every operation is a function from a database to its
result and the next database.

Anything outside the program's control comes in as a parameter:

- the auto-increment id the server assigns, with a precondition that it is fresh;
- the generated pot uuid;
- the current time `now`;
- the SQL server's `DATE()`, `WEEK()` and `MONTH()`, as a `Calendar`;
- the password hash and the hash comparison;
- which statements fail, as a `Fault`. Statements are numbered in the order a
  call issues them, and `FailsFrom(k)` makes statement `k` and all later ones
  fail.

Modules:

- `Seqs`: filter, first index, descending sort, top-n, largest. Each comes with
  the membership lemmas the other modules use.
- `Text`: Go's `strings.Split` and `strings.Join` on one separator, and `%d`
  printing. Both are proved to be inverses.
- `Store`: entities, errors, `Result`/`Outcome`, `Fault`, `Calendar`, row
  lookups, and the consistency conditions. `Valid` requires unique keys, every
  membership naming a room, and `member_cnt` equal to the room's number of
  memberships. `WithinCapacity` requires `member_cnt <= member_limit`.
- `Series`: the record/ingredient inner join, interval sums, and
  `GROUP BY DATE(created_at)`.
- `IngredientQuery`, `UserQuery`, `RecordQuery`, `RoomQuery`: one module per
  query file.
- `UserApi`: the user handlers' queries.

`JoinRoom` and `LeaveRoom` are modelled twice. The `...AsWritten` versions do
what the code does: the writes bypass the transaction (see Findings). The
corrected versions are all-or-nothing. Everything else builds on the corrected
ones.

## Model

| member | source | states |
|---|---|---|
| IngredientQuery.GetIngredients | pkg/mariadb/query/ingredient.go:17-40 | Lists every ingredient row once, with unique ids when the table's keys are unique; AddThenList relates it to AddIngredient |
| IngredientQuery.AddIngredient | pkg/mariadb/query/ingredient.go:42-56 | A failed insert changes nothing and reports an error. Otherwise the new ingredient is appended with the given fields at the assigned id, earlier rows and other tables are unchanged, and unique keys are kept. The id is returned unless LastInsertId fails, which reports an error but keeps the row |
| IngredientQuery.AddThenList | pkg/mariadb/query/ingredient.go:17-56 | After an add, listing the ingredients gives the old list followed by the new ingredient, even when LastInsertId failed; after a failed insert it gives the old list |
| UserQuery.CheckEmail | pkg/mariadb/query/user.go:56-64 | True exactly when some user has the email |
| UserQuery.CheckUser | pkg/mariadb/query/user.go:66-74 | True exactly when some user has the id |
| UserQuery.SignUp | pkg/mariadb/query/user.go:76-96 | Returns the new id and appends a user with the form's fields, the stored hash, level 1, total time 0 and creation time now; nothing else changes |
| UserQuery.Login | pkg/mariadb/query/user.go:98-116 | Never an error. Returns -1 for an unknown email or a wrong password, otherwise the id of the user holding the email whose hash matches |
| UserQuery.SignUpThenLogin | pkg/mariadb/query/user.go:56-116 | After signing up with a fresh email, both existence checks hold and logging in with that password returns the new id |
| UserQuery.CookingTime | pkg/mariadb/query/user.go:126-138 | 0 when nothing is cooking. Otherwise now minus the creation time of a cooking record that no other cooking record of the user postdates |
| UserQuery.Status | pkg/mariadb/query/user.go:139-153 | (0, "") when the user has no joined record. Otherwise the status and ingredient name of the user's newest joined record |
| UserQuery.LatestDone | pkg/mariadb/query/user.go:154-175 | Exactly min(5, n) rows for the user's n completed joined records, newest first, drawn from them without repetition (a sub-multiset). Every completed record of the user is listed or no newer than the fifth |
| UserQuery.GetProfile | pkg/mariadb/query/user.go:118-177 | Fails with "no rows" exactly when the user is missing. Otherwise the user's id, name and avatar with the cooking time, status and done names above |
| UserQuery.NextLevel | pkg/mariadb/query/user.go:292-306 | The image of the first ingredient whose requirement is "level" followed by level+1, or "" when none has it |
| UserQuery.AddIngredientUnlocksLevel | pkg/mariadb/query/user.go:292-306 | When no ingredient had the tag yet, adding one tagged for level+1 makes its image the next unlock; a failed insert leaves none |
| UserQuery.AddIngredientOtherLevel | pkg/mariadb/query/user.go:292-306 | Adding an ingredient tagged for another level leaves the next unlock unchanged, because distinct numbers print differently |
| UserQuery.Today | pkg/mariadb/query/user.go:210-234 | Lists (record id, ingredient image) for exactly the user's joined records finished on today's date, each record once when record ids are unique |
| UserQuery.WeekInterval | pkg/mariadb/query/user.go:236-262 | One entry per day on which the user created records this week, days strictly increasing, each with that day's interval sum; days without records are absent |
| UserQuery.MonthInterval | pkg/mariadb/query/user.go:264-290 | The same for the user's records created this month |
| UserQuery.GetOverview | pkg/mariadb/query/user.go:179-208 | Fails with "user <id> does not exist" exactly when the user is missing. Otherwise level, total time, next unlock, today, week and month |
| Series.JoinIngredients | pkg/mariadb/query/record.go:71 | A row is in the join exactly when its record is in the table and its ingredient is the one the record names. Unique record ids stay unique |
| Series.GroupByDate | pkg/mariadb/query/user.go:238-244 | Days strictly increase, a day is listed exactly when some record was created on it, and each day carries the sum of that day's intervals |
| RecordQuery.CreateRecord | pkg/mariadb/query/record.go:49-66 | Appends a session at the new id with the request's user, room, pot and ingredient, status, interval and interrupt 0, no image, caption or finish time, and creation time now. A failed insert changes nothing; a failed LastInsertId keeps the row but reports an error |
| RecordQuery.CreatePreservesValid | pkg/mariadb/query/record.go:49-66 | Creating a session keeps the database consistent |
| RecordQuery.GetRecordOverview | pkg/mariadb/query/record.go:68-88 | Lists exactly the overviews of the joined records whose user (or room) column equals the owner, each record once when record ids are unique |
| RecordQuery.GetRecordDetail | pkg/mariadb/query/record.go:90-110 | Lists exactly the details of the joined records with the id |
| RecordQuery.DetailAtMostOne | pkg/mariadb/query/record.go:90-110 | With unique record ids the detail list has at most one entry |
| RecordQuery.CreateThenDetail | pkg/mariadb/query/record.go:49-110 | A session just created reads back with its ingredient, empty optional fields, interval 0 and status 0 |
| RecordQuery.UpdateRecord | pkg/mariadb/query/record.go:112-134 | "Record not found or already done" exactly when no session with the id has status 0. On success every row with the id gets the submitted fields and finish time now, its identity is unchanged, and all other rows and tables are unchanged. Every failure changes nothing |
| RecordQuery.UpdatePreservesValid | pkg/mariadb/query/record.go:112-134 | Completing a session keeps the database consistent |
| RecordQuery.UpdateThenDetail | pkg/mariadb/query/record.go:112-134 | After a completion of a session whose ingredient exists, the detail is non-empty, and every row shows the submitted image, caption, interval, interrupt, status and finish time now |
| RecordQuery.CompleteOnce | pkg/mariadb/query/record.go:113-128 | A completed session can be completed again exactly when the submitted status was 0, on any database, also one with duplicate record ids |
| RoomQuery.CreateRoom | pkg/mariadb/query/room.go:50-97 | Succeeds exactly when no statement fails and the pot id and membership are new. It then appends the room (count 1, level 1, total 0, current pot, creation time now), its pot and the creator's membership. Any failure changes nothing |
| RoomQuery.CreateRoomPreservesValid | pkg/mariadb/query/room.go:50-97 | Creating a room keeps the database consistent: the new room's count of 1 matches its single member |
| RoomQuery.CreateRoomWithinCapacity | pkg/mariadb/query/room.go:58-61 | A room created with a limit of at least 1 keeps every room within capacity |
| RoomQuery.ToRoomDetail | pkg/mariadb/query/room.go:114-122 | The listed tags contain no separator, and joining them with it gives back the stored category |
| RoomQuery.CategoryRoundTrip | pkg/mariadb/query/room.go:120 | Separator-free tags, stored joined, are listed back unchanged |
| RoomQuery.GetRooms | pkg/mariadb/query/room.go:99-124 | Lists exactly the rooms the user is a member of, each once when room ids are unique |
| RoomQuery.GetPublicRooms | pkg/mariadb/query/room.go:126-150 | Lists exactly the rooms whose privacy is "public", each once when room ids are unique |
| RoomQuery.CreateThenListed | pkg/mariadb/query/room.go:50-124 | The creator's room list includes the new room, with one member and the requested limit |
| RoomQuery.JoinRefusal | pkg/mariadb/query/room.go:317-347 | Error for a missing room, for an existing member, and for a full room, each exactly under its condition; nothing is written when none applies and Begin succeeds |
| RoomQuery.JoinRoom | pkg/mariadb/query/room.go:316-374 | Succeeds exactly when the checks pass and the writes and commit succeed. It then adds the membership and increments only that room's count. A failed write or commit returns the database error. Any failure changes nothing |
| RoomQuery.JoinRoomAsWritten | pkg/mariadb/query/room.go:343-373 | As the code runs: a failed write or commit returns the database error; a failed insert writes nothing, a failed count update keeps the new membership and nothing else, and a failed commit keeps both writes |
| RoomQuery.JoinRoomPreservesValid | pkg/mariadb/query/room.go:349-366 | Joining keeps the database consistent: the new member is counted exactly once |
| RoomQuery.JoinRoomKeepsCapacity | pkg/mariadb/query/room.go:334-342 | With unique room ids, no join takes a room past its limit |
| RoomQuery.LeaveRefusal | pkg/mariadb/query/room.go:377-398 | Error for a missing room and for a non-member, each exactly under its condition |
| RoomQuery.LeaveRoom | pkg/mariadb/query/room.go:376-425 | Succeeds exactly when the checks pass and the writes and commit succeed. It then removes the membership and decrements only that room's count. A failed write or commit returns the database error. Any failure changes nothing |
| RoomQuery.LeaveRoomAsWritten | pkg/mariadb/query/room.go:394-424 | As the code runs: a failed write or commit returns the database error; a failed delete writes nothing, a failed count update keeps the removal and nothing else, and a failed commit keeps both writes |
| RoomQuery.LeaveRoomPreservesValid | pkg/mariadb/query/room.go:399-417 | Leaving keeps the database consistent and every room within capacity |
| RoomQuery.JoinThenLeave | pkg/mariadb/query/room.go:316-425 | Leaving right after a successful join restores the database exactly |
| RoomQuery.LeaveThenJoin | pkg/mariadb/query/room.go:316-425 | In a consistent database within capacity, joining right after a successful leave succeeds and restores the database exactly |
| RoomQuery.JoinRoomAsWrittenAgrees | pkg/mariadb/query/room.go:316-374 | The code's join matches the intended one unless the first failure is the count update or the commit; a failed insert writes nothing in both |
| RoomQuery.JoinRoomAsWrittenLeavesStaleCount | pkg/mariadb/query/room.go:349-366 | From any consistent database where the join would pass, a failed count update reports an error and leaves the count not matching the memberships |
| RoomQuery.JoinRoomAsWrittenCommitFailure | pkg/mariadb/query/room.go:367-372 | A failed commit reports an error although the user is now a member |
| RoomQuery.JoinStaleCountExample | pkg/mariadb/query/room.go:349-366 | Concrete case: room 1 (limit 2, member 7), user 8 joins and the update fails. The code leaves the counts wrong; the corrected join changes nothing |
| RoomQuery.LeaveRoomAsWrittenAgrees | pkg/mariadb/query/room.go:376-425 | The code's leave matches the intended one unless the first failure is the count update or the commit; a failed delete writes nothing in both |
| RoomQuery.LeaveRoomAsWrittenLeavesStaleCount | pkg/mariadb/query/room.go:399-417 | From any consistent database where the leave would pass, a failed count update reports an error and leaves the count not matching the memberships |
| RoomQuery.SetUserTotal | pkg/mariadb/query/room.go:252-257 | Only the caller's total of the entry for the user row's day changes, and with distinct days it is set to the row's length |
| RoomQuery.MergeUserTotals | pkg/mariadb/query/room.go:247-258 | After the merge loop, each entry's caller total is the length of the user row for its day, or unchanged when there is none |
| RoomQuery.LookupDayTotal | pkg/mariadb/query/room.go:247-258 | Looking a day up in the grouped per-day series yields that day's total; a day it does not list has total 0, which is why an entry the merge does not touch keeps the caller total 0 |
| RoomQuery.RoomWeekInterval | pkg/mariadb/query/room.go:209-260 | Days strictly increase and are exactly the days with room records this week. Each carries the room's day total and the caller's own day total in the room (0 if the caller has none that day) |
| RoomQuery.UserDaysListed | pkg/mariadb/query/room.go:209-260 | Every day on which the caller has records in the room this week has an entry |
| RoomQuery.UserDayWithinRoomDay | pkg/mariadb/query/room.go:209-260 | With no negative intervals, the caller's total of any day in the room this week lies between 0 and the whole room's total of that day |
| RoomQuery.UserTotalWithinRoomTotal | pkg/mariadb/query/room.go:209-260 | With no negative intervals, 0 <= caller total <= room total on every day |
| RoomQuery.RoomRows | pkg/mariadb/query/room.go:262-314 | The room's joined records in one status, newest first: a reordering of exactly the matching rows |
| RoomQuery.RoomMembers | pkg/mariadb/query/room.go:173-190 | Lists exactly the users whose membership pairs them with the room, with their avatars, each once when user ids are unique |
| RoomQuery.MembersMatchCount | pkg/mariadb/query/room.go:173-190 | In a consistent database whose memberships name users, the member list is exactly member_cnt long |
| RoomQuery.GetRoomOverview | pkg/mariadb/query/room.go:152-207 | Fails with "room does not exist" exactly when the room is missing. Otherwise its row, level and next unlock, members, week, and cooking and done lists |
| UserApi.SignUp | api/user/user.go:36-73 | "Email already exists" exactly when a user has the non-empty email. The database changes exactly when the email is free and the insert does not fail: then the user is appended at level 1 with the hash. A failed LastInsertId keeps the row but reports an error |
| UserApi.SignUpKeepsEmailsUnique | api/user/user.go:39-48 | Sign-up never registers a non-empty email twice |
| UserApi.SignUpTwice | api/user/user.go:39-48 | A second sign-up with the same non-empty email is refused |
| UserApi.Login | api/user/user.go:75-101 | "User not found" exactly when no user has the email, and a database error exactly when the lookup fails. Otherwise the first user with the email decides: its id when the password matches its hash, "incorrect password" when not |
| UserApi.SignUpThenLogin | api/user/user.go:36-101 | After a sign-up with a fresh email, logging in with the same password returns the new id |
| UserApi.DayWithinTotal | api/user/user.go:114-120 | With no negative intervals, one day's finished total is between 0 and the user's all-time total |
| UserApi.WeekInterval | api/user/user.go:162-177 | Exactly 7 slots, oldest first. Slot k holds the total of the user's records finished 6-k days before today, and 0 when there are none |
| UserApi.GetProfile | api/user/user.go:103-137 | Fails exactly when the user is missing. Otherwise id, avatar, name, level, all-time total, today's list and the 7 slots, each slot between 0 and the total when no interval is negative |

## Left out

- Read failures are not modelled for the read queries. A failed `Query`, `QueryRow` or `Scan`
  in the listings, overviews, profiles and series would be passed to the caller unchanged.
  Faults are modelled for the statements of the operations that write.
- String comparison in SQL (`email = ?`, `privacy = 'public'`, `requirement = "level<n>"`) is
  exact equality of character sequences. This assumes a case-sensitive collation that keeps
  trailing spaces; the schema is not part of this model. Under MariaDB's default collations,
  signing up "A@x.com" after "a@x.com" is refused, while UserApi.SignUp accepts it.
- Concurrency is left out: each call runs alone. Two joins racing past the capacity check, or
  a join racing a leave, are outside the model.
- UserQuery.SignUp: hashing and insert failures are not modelled, and it always returns the id.
  UserApi.SignUp models those failures.
- UserApi.SignUp: the request type at this revision has no name field, but signUp reads one.
  The model gives the request a name. The controller's "@" check and token generation are HTTP
  plumbing and are left out.
- bcrypt is left out: hashing is a `hash` parameter and comparison a `passwordMatches` parameter.
- Logging, the uuid generator, the clock and auto-increment are parameters or left out.
- The database's column defaults are assumed: `record.created_at` and the API insert's
  `total_time` are not written by the insert, and are taken as now and 0.
- Time is whole seconds, and dates are day numbers from `Calendar`. Go's date-string formatting
  of `finish_time` and of the series dates is not modelled.
- `WEEK()` and `MONTH()` are week-of-year and month-of-year numbers, as the queries use them.
  The model keeps their disregard of the year.
- The nullable `avatar` column is an `int`.
- Rows without `ORDER BY` come back in table order, except `GROUP BY` results: the model
  assumes MariaDB returns grouped rows sorted by the group key, so `Series.GroupByDate`,
  `UserQuery.WeekInterval`, `UserQuery.MonthInterval` and `RoomQuery.RoomWeekInterval` state
  their days in increasing date order although their queries have no `ORDER BY`. Ties under `ORDER BY created_at DESC`
  come back in any order; the contracts speak only of "no newer" for them.
- RecordQuery.GetRecordOverview: the code concatenates the column name into the SQL. The
  model limits it to the two columns the callers pass, `record.user_id` and `record.room_id`.
- Record listings have no `ORDER BY` and come back in table order.
- The room week lists only the days with room records; other days of the week are absent.
- `record.pot_id` is an integer, while a pot's own id is the uuid string the room insert
  generates. No record can name a pot, so the model keeps `Record.potId` an `int` and relates
  it to nothing.
- `GetRoomOverview` ignores an error from the next-level lookup. The model's next-level lookup
  has no error, so this is not visible.
- RoomQuery.UserDayWithinRoomDay, RoomQuery.UserTotalWithinRoomTotal and UserApi.DayWithinTotal assume no negative intervals.
  The source does not check the sign of a submitted `time_interval`.
- RoomQuery.CreateRoomWithinCapacity assumes a member limit of at least 1. The source accepts
  any limit, and a room created with limit 0 starts over capacity.
- Integers are unbounded. Go's `int` is 64-bit, and `member_cnt` and the interval sums are far
  from overflow in practice.

## Findings

| source | as written | input that shows it | evidently intended | confidence | as-written member | corrected member |
|---|---|---|---|---|---|---|
| pkg/mariadb/query/room.go:344-372 | JoinRoom begins a transaction but runs the room_user insert and the member_cnt update on the pool, so each write commits by itself and the rollback undoes nothing | Room 1 with member_cnt 1, member_limit 2 and member 7; user 8 joins and the UPDATE fails: an error is returned, 8 is a member, and member_cnt stays 1 | Both writes inside the transaction, so a failure leaves the database as it was | high, not executed | RoomQuery.JoinRoomAsWritten, RoomQuery.JoinRoomAsWrittenLeavesStaleCount, RoomQuery.JoinStaleCountExample | RoomQuery.JoinRoom, RoomQuery.JoinRoomPreservesValid |
| pkg/mariadb/query/room.go:395-423 | LeaveRoom has the same pattern: the delete and the decrement run outside the transaction it began | A consistent room in which the user is a member; the user leaves and the UPDATE fails: an error is returned, the membership is gone, and member_cnt still counts it | Both writes inside the transaction | high, not executed | RoomQuery.LeaveRoomAsWritten, RoomQuery.LeaveRoomAsWrittenLeavesStaleCount | RoomQuery.LeaveRoom, RoomQuery.LeaveRoomPreservesValid |
