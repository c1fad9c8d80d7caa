/** User queries and registration of the current API, and the profile view
    that attaches the live state of the user's active fast. */
module Users {
  import opened Wrappers
  import opened Schema
  import Query
  import Fasts

  /** Body of a registration request. */
  datatype UserCreate = UserCreate(email: string, password: string)

  /** A user as the profile endpoint shows it: the stored row plus the
      active fast, whose duration is the time elapsed so far. */
  datatype UserProfile = UserProfile(user: DbUser, activeFast: Option<DbFast>)

  const PasswordSuffix := "notreallyhashed"

  /** The placeholder credential transform: the password with a fixed suffix. */
  function HashPassword(password: string): (r: string)
    ensures |r| == |password| + |PasswordSuffix|
    ensures r[..|password|] == password
    ensures r[|password|..] == PasswordSuffix
  {
    password + PasswordSuffix
  }

  /** Distinct passwords never share a stored credential. */
  lemma HashPasswordInjective(a: string, b: string)
    requires HashPassword(a) == HashPassword(b)
    ensures a == b
  {
    assert |a| == |b|;
    assert a == HashPassword(a)[..|a|];
  }

  function HasId(userId: int): DbUser -> bool
  {
    (u: DbUser) => u.id == userId
  }

  function HasEmail(email: string): DbUser -> bool
  {
    (u: DbUser) => u.email == email
  }

  /** Some stored user has this id. */
  predicate UserExists(users: seq<DbUser>, userId: int)
  {
    exists i :: 0 <= i < |users| && users[i].id == userId
  }

  /** `get_user`: the user's row with its active fast attached; the active
      fast's duration is the live `now - start_time`, and the stored row keeps
      its own duration. The source dereferences the row before anyone checks
      it, so the user must exist. */
  function GetUser(db: Db, userId: int, now: int): (r: UserProfile)
    requires UserExists(db.users, userId)
    ensures r.user in db.users && r.user.id == userId
    ensures r.activeFast.None? <==> Fasts.GetActiveFast(db.fasts, userId).None?
    ensures r.activeFast.Some? ==>
      var stored := Fasts.GetActiveFast(db.fasts, userId).value;
      && r.activeFast.value.duration == Some(now - stored.startTime)
      && r.activeFast.value.(duration := stored.duration) == stored
  {
    var user := Query.First(db.users, HasId(userId)).value;
    match Fasts.GetActiveFast(db.fasts, userId)
    case None => UserProfile(user, None)
    case Some(f) => UserProfile(user, Some(f.(duration := Some(now - f.startTime))))
  }

  /** `get_user_by_email`: a user with exactly this email, or none when no
      user has it. */
  function GetUserByEmail(users: seq<DbUser>, email: string): (r: Option<DbUser>)
    ensures r.None? <==> forall u :: u in users ==> u.email != email
    ensures r.Some? ==> r.value in users && r.value.email == email
  {
    Query.First(users, HasEmail(email))
  }

  /** `get_users`: the contiguous run of users starting at `skip`, at most
      `limit` long, and as long as the table allows. */
  function GetUsers(users: seq<DbUser>, skip: int, limit: int): (r: seq<DbUser>)
    ensures Query.IsSliceAt(r, users, Query.Offset(skip, |users|))
    ensures limit >= 0 ==> |r| <= limit
    ensures limit >= 0 && Query.Offset(skip, |users|) + limit <= |users| ==> |r| == limit
    ensures limit < 0 || |r| < limit ==> Query.Offset(skip, |users|) + |r| == |users|
  {
    Query.Page(users, skip, limit)
  }

  /** `create_user`: stores a new user with the email and the transformed
      password only; the profile fields stay unset and the user is active. */
  function CreateUser(db: Db, req: UserCreate): (r: (Db, DbUser))
    ensures r.0.users == db.users + [r.1]
    ensures r.0.fasts == db.fasts && r.0.weights == db.weights
    ensures r.1.email == req.email && r.1.hashedPassword == HashPassword(req.password)
    ensures r.1.weight.None? && r.1.height.None? && r.1.goalWeight.None? && r.1.unit.None?
    ensures r.1.isActive
    ensures forall u :: u in db.users ==> u.id < r.1.id
  {
    var id := Query.NextId(db.users, (u: DbUser) => u.id);
    var user := DbUser(id, req.email, None, None, None, HashPassword(req.password), true, None);
    (db.(users := db.users + [user]), user)
  }
}
