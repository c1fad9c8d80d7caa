/** The fast lifecycle of the current API: request validation, the
    per-user queries, and the two transitions start and end. */
module Fasts {
  import opened Wrappers
  import opened Schema
  import Query

  /** Body of a start request: when the fast began and when it should end. */
  datatype FastCreate = FastCreate(startTime: int, plannedEndTime: int)

  /** Body of an end request. */
  datatype FastEnd = FastEnd(endTime: int)

  const FutureStartDetail := "You can't create future date fast."
  const FutureEndDetail := "You can't end fast with future date."

  /** The `start_time` validator: a start strictly after `now` is refused. */
  function ValidateFastCreate(req: FastCreate, now: int): (r: Result<FastCreate, ApiError>)
    ensures r.Success? <==> req.startTime <= now
    ensures r.Success? ==> r.value == req
    ensures r.Failure? ==> r.error == Unprocessable(FutureStartDetail)
  {
    if req.startTime > now then Failure(Unprocessable(FutureStartDetail)) else Success(req)
  }

  /** The `end_time` validator: an end strictly after `now` is refused. */
  function ValidateFastEnd(req: FastEnd, now: int): (r: Result<FastEnd, ApiError>)
    ensures r.Success? <==> req.endTime <= now
    ensures r.Success? ==> r.value == req
    ensures r.Failure? ==> r.error == Unprocessable(FutureEndDetail)
  {
    if req.endTime > now then Failure(Unprocessable(FutureEndDetail)) else Success(req)
  }

  /** A fast of `userId` that has not been completed. */
  predicate IsActiveOf(f: DbFast, userId: int)
  {
    f.userId == userId && !f.completed
  }

  function ActiveOf(userId: int): DbFast -> bool
  {
    (f: DbFast) => IsActiveOf(f, userId)
  }

  function OwnedBy(userId: int): DbFast -> bool
  {
    (f: DbFast) => f.userId == userId
  }

  /** All fasts of one user, in store order. */
  function OfUser(fasts: seq<DbFast>, userId: int): seq<DbFast>
  {
    Query.Where(fasts, OwnedBy(userId))
  }

  /** The central consistency rule: no user has two uncompleted fasts. */
  ghost predicate AtMostOneActivePerUser(fasts: seq<DbFast>)
  {
    forall i, j ::
      (0 <= i < |fasts| && 0 <= j < |fasts| && !fasts[i].completed && !fasts[j].completed &&
       fasts[i].userId == fasts[j].userId) ==> i == j
  }

  /** Position of the user's active fast, the first uncompleted one. */
  function ActiveIndex(fasts: seq<DbFast>, userId: int): (r: Option<nat>)
    ensures r.None? <==> forall i :: 0 <= i < |fasts| ==> !IsActiveOf(fasts[i], userId)
    ensures r.Some? ==> r.value < |fasts| && IsActiveOf(fasts[r.value], userId)
  {
    Query.FirstIndex(fasts, ActiveOf(userId))
  }

  /** `get_active_fast`: the user's uncompleted fast, or none. */
  function GetActiveFast(fasts: seq<DbFast>, userId: int): (r: Option<DbFast>)
    ensures r.None? <==> forall f :: f in fasts ==> !IsActiveOf(f, userId)
    ensures r.Some? ==> r.value in fasts && r.value.userId == userId && !r.value.completed
  {
    match ActiveIndex(fasts, userId)
    case None => None
    case Some(k) => Some(fasts[k])
  }

  /** Under the consistency rule the active fast is the only uncompleted fast
      of its user. */
  lemma ActiveFastIsUnique(fasts: seq<DbFast>, userId: int, j: nat)
    requires AtMostOneActivePerUser(fasts)
    requires j < |fasts| && IsActiveOf(fasts[j], userId)
    ensures ActiveIndex(fasts, userId) == Some(j)
  {
  }

  /** One more scanned row adds that row to the user's fasts when it is theirs. */
  lemma OfUserSnoc(fasts: seq<DbFast>, i: nat, userId: int)
    requires i < |fasts|
    ensures OfUser(fasts[..i + 1], userId)
      == OfUser(fasts[..i], userId) + (if fasts[i].userId == userId then [fasts[i]] else [])
  {
    assert fasts[..i + 1][..i] == fasts[..i];
  }

  /** The page of the user's fasts after one more matching row, when the
      page is not yet full. */
  lemma ScanStep(xs: seq<DbFast>, f: DbFast, skip: int, limit: int)
    requires limit < 0 || |Query.Page(xs, skip, limit)| < limit
    ensures Query.Page(xs + [f], skip, limit)
      == if |xs| >= (if skip < 0 then 0 else skip) then Query.Page(xs, skip, limit) + [f]
         else Query.Page(xs, skip, limit)
  {
    Query.PageSnoc(xs, f, skip, limit);
  }

  /** Every row of a page of the user's fasts is a fast of that user. */
  lemma PageOfUserIsOwned(fasts: seq<DbFast>, userId: int, skip: int, limit: int)
    ensures forall f :: f in Query.Page(OfUser(fasts, userId), skip, limit) ==> f in fasts && f.userId == userId
  {
    var all := OfUser(fasts, userId);
    var page := Query.Page(all, skip, limit);
    forall f | f in page
      ensures f in fasts && f.userId == userId
    {
      var lo := Query.Offset(skip, |all|);
      var k :| 0 <= k < |page| && page[k] == f;
      assert f == all[lo + k];
      assert f in all;
      assert f in multiset(all);
    }
  }

  /** One step of the scan in `GetFasts`: the next row joins the page when
      it is the user's, the user's earlier rows fill the offset, and the page
      is not yet full. */
  lemma GetFastsStep(fasts: seq<DbFast>, userId: int, skip: int, limit: int, i: nat)
    requires i < |fasts|
    requires limit < 0 || |Query.Page(OfUser(fasts[..i], userId), skip, limit)| < limit
    ensures var before, after := OfUser(fasts[..i], userId), OfUser(fasts[..i + 1], userId);
      && |after| == |before| + (if fasts[i].userId == userId then 1 else 0)
      && Query.Page(after, skip, limit)
         == Query.Page(before, skip, limit)
            + (if fasts[i].userId == userId && |before| >= (if skip < 0 then 0 else skip) then [fasts[i]] else [])
  {
    var before := OfUser(fasts[..i], userId);
    OfUserSnoc(fasts, i, userId);
    if fasts[i].userId == userId {
      ScanStep(before, fasts[i], skip, limit);
    }
  }

  /** Stopping the scan early, at a full page, loses nothing. */
  lemma GetFastsStop(fasts: seq<DbFast>, userId: int, skip: int, limit: int, i: nat)
    requires i <= |fasts|
    requires i == |fasts| || (limit >= 0 && |Query.Page(OfUser(fasts[..i], userId), skip, limit)| >= limit)
    ensures Query.Page(OfUser(fasts[..i], userId), skip, limit) == Query.Page(OfUser(fasts, userId), skip, limit)
  {
    if i < |fasts| {
      assert fasts == fasts[..i] + fasts[i..];
      Query.WhereAppend(fasts[..i], fasts[i..], OwnedBy(userId));
      Query.PageOfFullPrefix(OfUser(fasts[..i], userId), OfUser(fasts[i..], userId), skip, limit);
    } else {
      assert fasts[..i] == fasts;
    }
  }

  /** `get_fasts`: one scan over the table that skips the user's first `skip`
      fasts and collects at most `limit` more, exactly the `OFFSET`/`LIMIT`
      page of the user's fasts. */
  method GetFasts(fasts: seq<DbFast>, userId: int, skip: int, limit: int) returns (page: seq<DbFast>)
    ensures page == Query.Page(OfUser(fasts, userId), skip, limit)
    ensures forall f :: f in page ==> f in fasts && f.userId == userId
    ensures limit >= 0 ==> |page| <= limit
  {
    var offset := if skip < 0 then 0 else skip;
    var seen := 0;
    page := [];
    var i := 0;
    while i < |fasts| && (limit < 0 || |page| < limit)
      invariant 0 <= i <= |fasts|
      invariant seen == |OfUser(fasts[..i], userId)|
      invariant page == Query.Page(OfUser(fasts[..i], userId), skip, limit)
    {
      GetFastsStep(fasts, userId, skip, limit, i);
      if fasts[i].userId == userId {
        if seen >= offset {
          page := page + [fasts[i]];
        }
        seen := seen + 1;
      }
      i := i + 1;
    }
    GetFastsStop(fasts, userId, skip, limit, i);
    PageOfUserIsOwned(fasts, userId, skip, limit);
  }

  /** `create_user_fast`: appends one active fast for the user and returns it. */
  function CreateUserFast(db: Db, req: FastCreate, userId: int): (r: (Db, DbFast))
    ensures r.0.fasts == db.fasts + [r.1]
    ensures r.0.users == db.users && r.0.weights == db.weights
    ensures r.1.userId == userId && !r.1.completed && !r.1.deleted
    ensures r.1.endTime == None && r.1.duration == None && r.1.plannedDuration == None
    ensures r.1.startTime == req.startTime && r.1.plannedEndTime == req.plannedEndTime
    ensures forall f :: f in db.fasts ==> f.id < r.1.id
  {
    var id := Query.NextId(db.fasts, (f: DbFast) => f.id);
    var fast := DbFast(id, userId, req.startTime, None, false, false, None, req.plannedEndTime, None);
    (db.(fasts := db.fasts + [fast]), fast)
  }

  /** `end_user_fast`: completes the fast at `index` at the requested time.
      Nothing checks that the end follows the start, so the duration may be
      negative. */
  function EndUserFast(db: Db, req: FastEnd, index: nat): (r: (Db, DbFast))
    requires index < |db.fasts|
    ensures |r.0.fasts| == |db.fasts| && r.0.fasts[index] == r.1
    ensures forall j :: 0 <= j < |db.fasts| && j != index ==> r.0.fasts[j] == db.fasts[j]
    ensures r.0.users == db.users && r.0.weights == db.weights
    ensures r.1.completed && r.1.endTime == Some(req.endTime)
    ensures r.1.duration == Some(req.endTime - db.fasts[index].startTime)
    ensures r.1.(endTime := db.fasts[index].endTime, completed := db.fasts[index].completed,
                 duration := db.fasts[index].duration) == db.fasts[index]
  {
    var f := db.fasts[index];
    var ended := f.(endTime := Some(req.endTime), completed := true,
                    duration := Some(req.endTime - f.startTime));
    (db.(fasts := db.fasts[index := ended]), ended)
  }
}
