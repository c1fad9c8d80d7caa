/** The request handlers of the current API without the HTTP mechanics:
    each one is the guard it applies and the store it leaves behind. Body
    validation runs before the handler, so a refused body never reaches it. */
module Endpoints {
  import opened Wrappers
  import opened Schema
  import Query
  import Fasts
  import Users

  const EmailTakenDetail := "Email already registered"
  const UserNotFoundDetail := "User not found"
  const FastInProgressDetail := "Already a fast is in progress"
  const NoFastInProgressDetail := "There is no fast is in progress"

  /** No two users share an email. */
  ghost predicate DistinctEmails(users: seq<DbUser>)
  {
    forall i, j :: 0 <= i < |users| && 0 <= j < |users| && users[i].email == users[j].email ==> i == j
  }

  /** `POST /users/`: registration, refused when the email is taken. */
  function CreateUser(db: Db, req: Users.UserCreate): (r: Reply<DbUser>)
    ensures r.outcome.Failure? <==> exists u :: u in db.users && u.email == req.email
    ensures r.outcome.Failure? ==> r.db == db && r.outcome.error == BadRequest(EmailTakenDetail)
    ensures r.outcome.Success? ==> r.db.users == db.users + [r.outcome.value]
    ensures r.outcome.Success? ==> r.outcome.value.email == req.email
    ensures r.outcome.Success? ==>
      && r.outcome.value.hashedPassword == Users.HashPassword(req.password) && r.outcome.value.isActive
      && r.outcome.value.weight.None? && r.outcome.value.height.None?
      && r.outcome.value.goalWeight.None? && r.outcome.value.unit.None?
      && forall u :: u in db.users ==> u.id < r.outcome.value.id
    ensures r.outcome.Success? ==> r.db.fasts == db.fasts && r.db.weights == db.weights
  {
    match Users.GetUserByEmail(db.users, req.email)
    case Some(_) => Reply(db, Failure(BadRequest(EmailTakenDetail)))
    case None =>
      var (db', user) := Users.CreateUser(db, req);
      Reply(db', Success(user))
  }

  /** Registration keeps emails pairwise distinct. */
  lemma CreateUserKeepsEmailsDistinct(db: Db, req: Users.UserCreate)
    requires DistinctEmails(db.users)
    ensures DistinctEmails(CreateUser(db, req).db.users)
  {
    var r := CreateUser(db, req);
    if r.outcome.Success? {
      var users := r.db.users;
      forall i, j | 0 <= i < |users| && 0 <= j < |users| && users[i].email == users[j].email
        ensures i == j
      {
        if i < |db.users| && j < |db.users| {
          assert users[i] == db.users[i] && users[j] == db.users[j];
        }
      }
    }
  }

  /** `GET /users/`. */
  function ReadUsers(db: Db, skip: int, limit: int): (r: seq<DbUser>)
    ensures Query.IsSliceAt(r, db.users, Query.Offset(skip, |db.users|))
    ensures limit >= 0 ==> |r| <= limit
    ensures limit < 0 || |r| < limit ==> Query.Offset(skip, |db.users|) + |r| == |db.users|
  {
    Users.GetUsers(db.users, skip, limit)
  }

  /** `GET /users/{id}` as written: `get_user` dereferences the row before the
      handler's missing-user check runs, so an unknown id crashes the request
      instead of reaching the 404. */
  function ReadUserAsWritten(db: Db, userId: int, now: int): (r: Result<Users.UserProfile, ApiError>)
    ensures r.Failure? <==> !Users.UserExists(db.users, userId)
    ensures r.Failure? ==> r.error.StatusCode() == 500
    ensures r.Success? ==> r.value == Users.GetUser(db, userId, now)
  {
    if Users.UserExists(db.users, userId) then Success(Users.GetUser(db, userId, now))
    else Failure(ServerError("Internal Server Error"))
  }

  /** The as-written handler never answers 404: an empty store is refused
      with a server error. */
  lemma ReadUserAsWrittenNeverNotFound(db: Db, userId: int, now: int)
    ensures ReadUserAsWritten(db, userId, now).Failure? ==> !ReadUserAsWritten(db, userId, now).error.NotFound?
    ensures ReadUserAsWritten(Db([], [], []), 1, now).Failure?
    ensures ReadUserAsWritten(Db([], [], []), 1, now).error.StatusCode() == 500
  {
  }

  /** `GET /users/{id}` with the existence check before the lookup: 404
      exactly when no user has the id, else the profile. */
  function ReadUser(db: Db, userId: int, now: int): (r: Result<Users.UserProfile, ApiError>)
    ensures r.Failure? <==> !Users.UserExists(db.users, userId)
    ensures r.Failure? ==> r.error == NotFound(UserNotFoundDetail)
    ensures r.Success? ==> r.value.user.id == userId && r.value.user in db.users
    ensures r.Success? ==> r.value == Users.GetUser(db, userId, now)
  {
    match Query.First(db.users, Users.HasId(userId))
    case None => Failure(NotFound(UserNotFoundDetail))
    case Some(_) => Success(Users.GetUser(db, userId, now))
  }

  /** The handler as written and the corrected one differ only in how an
      unknown id is answered. */
  lemma ReadUserVersionsAgree(db: Db, userId: int, now: int)
    ensures ReadUserAsWritten(db, userId, now).Success? <==> ReadUser(db, userId, now).Success?
    ensures ReadUser(db, userId, now).Success? ==>
      ReadUserAsWritten(db, userId, now).value == ReadUser(db, userId, now).value
  {
  }

  /** `POST /users/{id}/fasts/`: a future start is refused by validation,
      a start while a fast is in progress by the handler; otherwise a new
      active fast is stored. The user's existence is not checked. */
  function CreateFastForUser(db: Db, userId: int, req: Fasts.FastCreate, now: int): (r: Reply<DbFast>)
    ensures r.outcome.Failure? ==> r.db == db
    ensures req.startTime > now ==> r.outcome == Failure(Unprocessable(Fasts.FutureStartDetail))
    ensures req.startTime <= now ==>
      (r.outcome.Failure? <==> Fasts.GetActiveFast(db.fasts, userId).Some?)
    ensures req.startTime <= now && r.outcome.Failure? ==> r.outcome.error == BadRequest(FastInProgressDetail)
    ensures r.outcome.Success? ==> r.db.fasts == db.fasts + [r.outcome.value]
    ensures r.outcome.Success? ==> Fasts.IsActiveOf(r.outcome.value, userId)
    ensures r.outcome.Success? ==> r.outcome.value.startTime == req.startTime
    ensures r.outcome.Success? ==> r.db.users == db.users && r.db.weights == db.weights
    ensures r.outcome.Success? ==>
      && !r.outcome.value.deleted && r.outcome.value.endTime.None? && r.outcome.value.duration.None?
      && r.outcome.value.plannedEndTime == req.plannedEndTime && r.outcome.value.plannedDuration.None?
      && forall f :: f in db.fasts ==> f.id < r.outcome.value.id
  {
    match Fasts.ValidateFastCreate(req, now)
    case Failure(e) => Reply(db, Failure(e))
    case Success(body) =>
      match Fasts.GetActiveFast(db.fasts, userId)
      case Some(_) => Reply(db, Failure(BadRequest(FastInProgressDetail)))
      case None =>
        var (db', fast) := Fasts.CreateUserFast(db, body, userId);
        Reply(db', Success(fast))
  }

  /** `POST /users/{id}/end_fast/`: a future end is refused by validation,
      an end with nothing in progress by the handler; otherwise the active
      fast is completed. */
  function EndFastForUser(db: Db, userId: int, req: Fasts.FastEnd, now: int): (r: Reply<DbFast>)
    ensures r.outcome.Failure? ==> r.db == db
    ensures req.endTime > now ==> r.outcome == Failure(Unprocessable(Fasts.FutureEndDetail))
    ensures req.endTime <= now ==>
      (r.outcome.Failure? <==> Fasts.GetActiveFast(db.fasts, userId).None?)
    ensures req.endTime <= now && r.outcome.Failure? ==> r.outcome.error == BadRequest(NoFastInProgressDetail)
    ensures r.outcome.Success? ==>
      var k := Fasts.ActiveIndex(db.fasts, userId).value;
      && |r.db.fasts| == |db.fasts|
      && r.db.fasts == db.fasts[k := r.outcome.value]
      && r.outcome.value.completed && r.outcome.value.endTime == Some(req.endTime)
      && r.outcome.value.duration == Some(req.endTime - db.fasts[k].startTime)
      && r.outcome.value.(endTime := db.fasts[k].endTime, completed := db.fasts[k].completed,
                          duration := db.fasts[k].duration) == db.fasts[k]
      && r.db.users == db.users && r.db.weights == db.weights
  {
    match Fasts.ValidateFastEnd(req, now)
    case Failure(e) => Reply(db, Failure(e))
    case Success(body) =>
      match Fasts.ActiveIndex(db.fasts, userId)
      case None => Reply(db, Failure(BadRequest(NoFastInProgressDetail)))
      case Some(k) =>
        var (db', fast) := Fasts.EndUserFast(db, body, k);
        Reply(db', Success(fast))
  }

  /** `GET /users/{id}/fasts`. */
  method ReadFasts(db: Db, userId: int, skip: int, limit: int) returns (page: seq<DbFast>)
    ensures page == Query.Page(Fasts.OfUser(db.fasts, userId), skip, limit)
    ensures forall f :: f in page ==> f in db.fasts && f.userId == userId
  {
    page := Fasts.GetFasts(db.fasts, userId, skip, limit);
  }

  /** Starting a fast keeps at most one active fast per user. */
  lemma {:induction false} StartKeepsOneActive(db: Db, userId: int, req: Fasts.FastCreate, now: int)
    requires Fasts.AtMostOneActivePerUser(db.fasts)
    ensures Fasts.AtMostOneActivePerUser(CreateFastForUser(db, userId, req, now).db.fasts)
  {
    var r := CreateFastForUser(db, userId, req, now);
    if r.outcome.Success? {
      var fs := r.db.fasts;
      var n := |db.fasts|;
      assert fs[n] == r.outcome.value;
      forall i, j | 0 <= i < |fs| && 0 <= j < |fs| && !fs[i].completed && !fs[j].completed
                    && fs[i].userId == fs[j].userId
        ensures i == j
      {
        if i < n && j < n {
          assert fs[i] == db.fasts[i] && fs[j] == db.fasts[j];
        }
      }
    }
  }

  /** Ending a fast keeps at most one active fast per user. */
  lemma {:induction false} EndKeepsOneActive(db: Db, userId: int, req: Fasts.FastEnd, now: int)
    requires Fasts.AtMostOneActivePerUser(db.fasts)
    ensures Fasts.AtMostOneActivePerUser(EndFastForUser(db, userId, req, now).db.fasts)
  {
    var r := EndFastForUser(db, userId, req, now);
    if r.outcome.Success? {
      var fs := r.db.fasts;
      var k := Fasts.ActiveIndex(db.fasts, userId).value;
      forall i, j | 0 <= i < |fs| && 0 <= j < |fs| && !fs[i].completed && !fs[j].completed
                    && fs[i].userId == fs[j].userId
        ensures i == j
      {
        assert i != k && j != k;
        assert fs[i] == db.fasts[i] && fs[j] == db.fasts[j];
      }
    }
  }

  /** Once a fast has been ended, ending again is refused: nothing is in
      progress any more. */
  lemma EndTwiceFails(db: Db, userId: int, first: Fasts.FastEnd, second: Fasts.FastEnd, now: int)
    requires Fasts.AtMostOneActivePerUser(db.fasts)
    requires EndFastForUser(db, userId, first, now).outcome.Success?
    requires second.endTime <= now
    ensures EndFastForUser(EndFastForUser(db, userId, first, now).db, userId, second, now).outcome
         == Failure(BadRequest(NoFastInProgressDetail))
  {
    var r := EndFastForUser(db, userId, first, now);
    var k := Fasts.ActiveIndex(db.fasts, userId).value;
    forall i | 0 <= i < |r.db.fasts|
      ensures !Fasts.IsActiveOf(r.db.fasts[i], userId)
    {
      if i != k {
        assert r.db.fasts[i] == db.fasts[i];
      }
    }
  }

  /** A start for one user leaves every other user's fasts as they were. */
  lemma StartLeavesOthersAlone(db: Db, userId: int, other: int, req: Fasts.FastCreate, now: int)
    requires other != userId
    ensures Fasts.OfUser(CreateFastForUser(db, userId, req, now).db.fasts, other) == Fasts.OfUser(db.fasts, other)
  {
    var r := CreateFastForUser(db, userId, req, now);
    if r.outcome.Success? {
      var fast := r.outcome.value;
      Query.WhereAppend(db.fasts, [fast], Fasts.OwnedBy(other));
      assert [fast][..0] == [];
      assert db.fasts + [fast] == r.db.fasts;
    }
  }

  /** An end for one user leaves every other user's fasts as they were. */
  lemma EndLeavesOthersAlone(db: Db, userId: int, other: int, req: Fasts.FastEnd, now: int)
    requires other != userId
    ensures Fasts.OfUser(EndFastForUser(db, userId, req, now).db.fasts, other) == Fasts.OfUser(db.fasts, other)
  {
    var r := EndFastForUser(db, userId, req, now);
    if r.outcome.Success? {
      var k := Fasts.ActiveIndex(db.fasts, userId).value;
      Query.WhereIgnoresUpdate(db.fasts, k, r.outcome.value, Fasts.OwnedBy(other));
    }
  }

  /** After a start, the profile shows the new fast as the active one. */
  lemma StartThenProfileShowsFast(db: Db, userId: int, req: Fasts.FastCreate, now: int)
    requires Users.UserExists(db.users, userId)
    requires CreateFastForUser(db, userId, req, now).outcome.Success?
    ensures
      var r := CreateFastForUser(db, userId, req, now);
      var p := Users.GetUser(r.db, userId, now);
      p.activeFast == Some(r.outcome.value.(duration := Some(now - req.startTime)))
  {
    var r := CreateFastForUser(db, userId, req, now);
    var n := |db.fasts|;
    assert r.db.fasts[n] == r.outcome.value;
    assert forall i :: 0 <= i < n ==> r.db.fasts[i] == db.fasts[i];
    assert Fasts.ActiveIndex(r.db.fasts, userId) == Some(n);
  }

  /** Ending before the start is not refused: the stored duration is then
      negative. */
  lemma EndBeforeStartIsAccepted()
    ensures
      var db := Db([], [DbFast(1, 7, 100, None, false, false, None, 1480, None)], []);
      var r := EndFastForUser(db, 7, Fasts.FastEnd(40), 200);
      r.outcome.Success? && r.outcome.value.duration == Some(-60)
  {
    var db := Db([], [DbFast(1, 7, 100, None, false, false, None, 1480, None)], []);
    assert Fasts.ActiveIndex(db.fasts, 7) == Some(0);
  }
}
