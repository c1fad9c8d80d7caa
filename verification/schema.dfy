/** The persisted schema (`users`, `fasts` and `weight` tables) as immutable
    records, and the store as one sequence per table in insertion order.
    Nullable columns are `Option`s. Times are whole minutes. */
module Schema {
  import opened Wrappers

  /** A row of `users`. */
  datatype DbUser = DbUser(
    id: int,
    email: string,
    weight: Option<real>,
    goalWeight: Option<real>,
    height: Option<real>,
    hashedPassword: string,
    isActive: bool,
    unit: Option<string>)

  /** A row of `fasts`; `duration` is `endTime - startTime` in minutes. */
  datatype DbFast = DbFast(
    id: int,
    userId: int,
    startTime: int,
    endTime: Option<int>,
    deleted: bool,
    completed: bool,
    duration: Option<int>,
    plannedEndTime: int,
    plannedDuration: Option<real>)

  /** A row of `weight`: the weight in kilograms and the BMI at entry time. */
  datatype DbWeight = DbWeight(
    id: int,
    weightTime: int,
    weight: real,
    unit: string,
    bmi: real,
    userId: int)

  /** The whole store. */
  datatype Db = Db(users: seq<DbUser>, fasts: seq<DbFast>, weights: seq<DbWeight>)

  /** The HTTP error an endpoint answers with. `Unprocessable` is the 422 the
      framework sends when a request body fails validation. */
  datatype ApiError =
    | Unprocessable(detail: string)
    | BadRequest(detail: string)
    | NotFound(detail: string)
    | ServerError(detail: string)
  {
    function StatusCode(): int
    {
      match this
      case Unprocessable(_) => 422
      case BadRequest(_) => 400
      case NotFound(_) => 404
      case ServerError(_) => 500
    }
  }

  /** The store after a request, and what the request answered. */
  datatype Reply<+T> = Reply(db: Db, outcome: Result<T, ApiError>)
}
