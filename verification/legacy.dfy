/** The earlier single-user version of the fast lifecycle: one global table
    of fasts with a soft-delete flag, a history sorted by start time, summary
    statistics and edit operations. Times arrive as `%Y-%m-%dT%H:%M` strings
    and are kept as minute counts. */
module Legacy {
  import opened Wrappers
  import Query
  import DateTimeText

  /** A row of the legacy `fasts` table; `plannedDuration` is in hours. */
  datatype Fast = Fast(
    id: int,
    startTime: int,
    endTime: Option<int>,
    deleted: bool,
    completed: bool,
    duration: Option<int>,
    plannedDuration: int)

  /** Why a legacy operation raised: a fast is already running, a time string
      did not parse, or no fast has the requested id. */
  datatype LegacyError = ActiveFastExists | MalformedTime | NoSuchFast

  /** Running: neither deleted nor completed. */
  predicate IsLive(f: Fast)
  {
    !f.deleted && !f.completed
  }

  /** Shown in the history: not deleted and completed. */
  predicate InHistory(f: Fast)
  {
    !f.deleted && f.completed
  }

  function Live(): Fast -> bool
  {
    (f: Fast) => IsLive(f)
  }

  function Finished(): Fast -> bool
  {
    (f: Fast) => InHistory(f)
  }

  function HasId(id: int): Fast -> bool
  {
    (f: Fast) => f.id == id
  }

  /** No two rows share an id. */
  ghost predicate UniqueIds(fasts: seq<Fast>)
  {
    forall i, j :: 0 <= i < |fasts| && 0 <= j < |fasts| && fasts[i].id == fasts[j].id ==> i == j
  }

  /** Every completed fast has its end time and its duration. */
  ghost predicate CompletedAreTimed(fasts: seq<Fast>)
  {
    forall i :: 0 <= i < |fasts| && fasts[i].completed ==> fasts[i].endTime.Some? && fasts[i].duration.Some?
  }

  /** At most one fast is running. */
  ghost predicate AtMostOneLive(fasts: seq<Fast>)
  {
    forall i, j :: 0 <= i < |fasts| && 0 <= j < |fasts| && IsLive(fasts[i]) && IsLive(fasts[j]) ==> i == j
  }

  ghost predicate Consistent(fasts: seq<Fast>)
  {
    UniqueIds(fasts) && CompletedAreTimed(fasts) && AtMostOneLive(fasts)
  }

  /** `Fast.get`: the position of the row with this id. */
  function IndexOf(fasts: seq<Fast>, id: int): (r: Option<nat>)
    ensures r.None? <==> forall i :: 0 <= i < |fasts| ==> fasts[i].id != id
    ensures r.Some? ==> r.value < |fasts| && fasts[r.value].id == id
  {
    Query.FirstIndex(fasts, HasId(id))
  }

  /** `active_fast`: the running fast, deleted fasts never counting. */
  function ActiveFast(fasts: seq<Fast>): (r: Option<Fast>)
    ensures r.None? <==> forall f :: f in fasts ==> !IsLive(f)
    ensures r.Some? ==> r.value in fasts && !r.value.deleted && !r.value.completed
  {
    Query.First(fasts, Live())
  }

  /** `start_fast`: refused while a fast is running, then refused when the
      start does not parse; otherwise one running fast is added. No check
      compares the start with the current time. */
  function StartFast(fasts: seq<Fast>, start: string, duration: int): (r: Result<seq<Fast>, LegacyError>)
    ensures ActiveFast(fasts).Some? ==> r == Failure(ActiveFastExists)
    ensures ActiveFast(fasts).None? && DateTimeText.ParseMinutes(start).None? ==> r == Failure(MalformedTime)
    ensures r.Success? <==> ActiveFast(fasts).None? && DateTimeText.ParseMinutes(start).Some?
    ensures r.Success? ==> |r.value| == |fasts| + 1 && r.value[..|fasts|] == fasts
    ensures r.Success? ==>
      var f := r.value[|fasts|];
      && Some(f.startTime) == DateTimeText.ParseMinutes(start)
      && IsLive(f) && f.endTime.None? && f.duration.None? && f.plannedDuration == duration
      && forall g :: g in fasts ==> g.id < f.id
  {
    if ActiveFast(fasts).Some? then Failure(ActiveFastExists)
    else
      match DateTimeText.ParseMinutes(start)
      case None => Failure(MalformedTime)
      case Some(t) =>
        var id := Query.NextId(fasts, (f: Fast) => f.id);
        var started := Fast(id, t, None, false, false, None, duration);
        assert (fasts + [started])[..|fasts|] == fasts;
        Success(fasts + [started])
  }

  /** `delete_fast`: sets the soft-delete flag of the fast with this id. */
  function DeleteFast(fasts: seq<Fast>, id: int): (r: Result<seq<Fast>, LegacyError>)
    ensures r.Failure? <==> IndexOf(fasts, id).None?
    ensures r.Failure? ==> r.error == NoSuchFast
    ensures r.Success? ==>
      var k := IndexOf(fasts, id).value;
      r.value == fasts[k := fasts[k].(deleted := true)]
  {
    match IndexOf(fasts, id)
    case None => Failure(NoSuchFast)
    case Some(k) => Success(fasts[k := fasts[k].(deleted := true)])
  }

  /** `calculate_duration`: for a completed fast, sets and returns
      `end_time - start_time`; for any other fast, changes nothing and
      returns nothing. */
  function CalculateDuration(f: Fast): (r: (Fast, Option<int>))
    requires f.completed ==> f.endTime.Some?
    ensures !f.completed ==> r.0 == f && r.1.None?
    ensures f.completed ==> r.1 == Some(f.endTime.value - f.startTime) && r.0.duration == r.1
    ensures r.0.(duration := f.duration) == f
  {
    if f.completed then
      var d := f.endTime.value - f.startTime;
      (f.(duration := Some(d)), Some(d))
    else (f, None)
  }

  /** The end time `end_fast` uses: the given string when it is non-empty,
      otherwise the current time. */
  function EndTimeOf(time: string, now: int): (r: Option<int>)
    ensures time == "" ==> r == Some(now)
    ensures time != "" ==> r == DateTimeText.ParseMinutes(time)
  {
    if time == "" then Some(now) else DateTimeText.ParseMinutes(time)
  }

  /** `end_fast`: completes the fast with this id at the given time, or now,
      and records its duration. It ends whichever fast the id names. */
  function EndFast(fasts: seq<Fast>, id: int, time: string, now: int): (r: Result<seq<Fast>, LegacyError>)
    ensures IndexOf(fasts, id).None? ==> r == Failure(NoSuchFast)
    ensures IndexOf(fasts, id).Some? && EndTimeOf(time, now).None? ==> r == Failure(MalformedTime)
    ensures r.Success? <==> IndexOf(fasts, id).Some? && EndTimeOf(time, now).Some?
    ensures r.Success? ==>
      var k := IndexOf(fasts, id).value;
      var t := EndTimeOf(time, now).value;
      && |r.value| == |fasts|
      && (forall j :: 0 <= j < |fasts| && j != k ==> r.value[j] == fasts[j])
      && r.value[k] == fasts[k].(completed := true, endTime := Some(t), duration := Some(t - fasts[k].startTime))
  {
    match IndexOf(fasts, id)
    case None => Failure(NoSuchFast)
    case Some(k) =>
      match EndTimeOf(time, now)
      case None => Failure(MalformedTime)
      case Some(t) =>
        var ended := CalculateDuration(fasts[k].(completed := true, endTime := Some(t))).0;
        Success(fasts[k := ended])
  }

  /** `edit_fast`: replaces the start time and the planned duration; the
      recorded duration is left as it was. */
  function EditFast(fasts: seq<Fast>, id: int, start: string, duration: int): (r: Result<seq<Fast>, LegacyError>)
    ensures IndexOf(fasts, id).None? ==> r == Failure(NoSuchFast)
    ensures IndexOf(fasts, id).Some? && DateTimeText.ParseMinutes(start).None? ==> r == Failure(MalformedTime)
    ensures r.Success? <==> IndexOf(fasts, id).Some? && DateTimeText.ParseMinutes(start).Some?
    ensures r.Success? ==> |r.value| == |fasts|
    ensures r.Success? ==>
      var k := IndexOf(fasts, id).value;
      && Some(r.value[k].startTime) == DateTimeText.ParseMinutes(start)
      && r.value == fasts[k := fasts[k].(startTime := r.value[k].startTime, plannedDuration := duration)]
  {
    match IndexOf(fasts, id)
    case None => Failure(NoSuchFast)
    case Some(k) =>
      match DateTimeText.ParseMinutes(start)
      case None => Failure(MalformedTime)
      case Some(t) => Success(fasts[k := fasts[k].(startTime := t, plannedDuration := duration)])
  }

  /** `edit_start` as written: the parsed start goes to an attribute that is
      not a column, so only the duration is recomputed, from the unchanged
      start and end. */
  function EditStart(fasts: seq<Fast>, id: int, start: string): (r: Result<seq<Fast>, LegacyError>)
    requires CompletedAreTimed(fasts)
    ensures IndexOf(fasts, id).None? ==> r == Failure(NoSuchFast)
    ensures IndexOf(fasts, id).Some? && DateTimeText.ParseMinutes(start).None? ==> r == Failure(MalformedTime)
    ensures r.Success? <==> IndexOf(fasts, id).Some? && DateTimeText.ParseMinutes(start).Some?
    ensures r.Success? ==>
      var k := IndexOf(fasts, id).value;
      r.value == fasts[k := CalculateDuration(fasts[k]).0]
  {
    match IndexOf(fasts, id)
    case None => Failure(NoSuchFast)
    case Some(k) =>
      match DateTimeText.ParseMinutes(start)
      case None => Failure(MalformedTime)
      case Some(_) => Success(fasts[k := CalculateDuration(fasts[k]).0])
  }

  /** `edit_end` as written: the same code as `edit_start`, so the parsed end
      is dropped just as the parsed start is. */
  function EditEnd(fasts: seq<Fast>, id: int, end: string): (r: Result<seq<Fast>, LegacyError>)
    requires CompletedAreTimed(fasts)
    ensures IndexOf(fasts, id).None? ==> r == Failure(NoSuchFast)
    ensures IndexOf(fasts, id).Some? && DateTimeText.ParseMinutes(end).None? ==> r == Failure(MalformedTime)
    ensures r.Success? <==> IndexOf(fasts, id).Some? && DateTimeText.ParseMinutes(end).Some?
    ensures r.Success? ==>
      var k := IndexOf(fasts, id).value;
      r.value == fasts[k := CalculateDuration(fasts[k]).0]
  {
    EditStart(fasts, id, end)
  }

  /** The edits as written never move a fast's start or end, whatever time
      they are given. */
  lemma EditsAsWrittenKeepTimes(fasts: seq<Fast>, id: int, s: string)
    requires CompletedAreTimed(fasts)
    ensures EditStart(fasts, id, s).Success? ==>
      var k := IndexOf(fasts, id).value;
      EditStart(fasts, id, s).value[k].startTime == fasts[k].startTime
      && EditStart(fasts, id, s).value[k].endTime == fasts[k].endTime
    ensures EditEnd(fasts, id, s).Success? ==>
      var k := IndexOf(fasts, id).value;
      EditEnd(fasts, id, s).value[k].startTime == fasts[k].startTime
      && EditEnd(fasts, id, s).value[k].endTime == fasts[k].endTime
  {
  }

  /** A concrete case: editing the start of a fast that began at minute 0 to
      2021-01-05T03:07 succeeds and leaves the start at minute 0. */
  lemma EditStartAsWrittenExample()
    ensures
      var fasts := [Fast(1, 0, None, false, false, None, 16)];
      var r := EditStart(fasts, 1, "2021-01-05T03:07");
      r.Success? && r.value[0].startTime == 0
      && DateTimeText.ParseMinutes("2021-01-05T03:07").value != 0
  {
    DateTimeText.ParseCanonicalExample("2021-01-05T03:07");
  }

  /** `edit_start` as evidently intended: the start is replaced, and the
      duration of a completed fast follows it. */
  function EditStartIntended(fasts: seq<Fast>, id: int, start: string): (r: Result<seq<Fast>, LegacyError>)
    requires CompletedAreTimed(fasts)
    ensures IndexOf(fasts, id).None? ==> r == Failure(NoSuchFast)
    ensures IndexOf(fasts, id).Some? && DateTimeText.ParseMinutes(start).None? ==> r == Failure(MalformedTime)
    ensures r.Success? <==> IndexOf(fasts, id).Some? && DateTimeText.ParseMinutes(start).Some?
    ensures r.Success? ==> |r.value| == |fasts|
    ensures r.Success? ==>
      var k := IndexOf(fasts, id).value;
      var g := r.value[k];
      && (forall j :: 0 <= j < |fasts| && j != k ==> r.value[j] == fasts[j])
      && Some(g.startTime) == DateTimeText.ParseMinutes(start)
      && g.(startTime := fasts[k].startTime, duration := fasts[k].duration) == fasts[k]
      && g.endTime == fasts[k].endTime && g.completed == fasts[k].completed && g.deleted == fasts[k].deleted
      && (g.completed ==> g.duration == Some(g.endTime.value - g.startTime))
      && (!g.completed ==> g.duration == fasts[k].duration)
  {
    match IndexOf(fasts, id)
    case None => Failure(NoSuchFast)
    case Some(k) =>
      match DateTimeText.ParseMinutes(start)
      case None => Failure(MalformedTime)
      case Some(t) => Success(fasts[k := CalculateDuration(fasts[k].(startTime := t)).0])
  }

  /** `edit_end` as evidently intended: the end is replaced, and the duration
      of a completed fast follows it. */
  function EditEndIntended(fasts: seq<Fast>, id: int, end: string): (r: Result<seq<Fast>, LegacyError>)
    ensures IndexOf(fasts, id).None? ==> r == Failure(NoSuchFast)
    ensures IndexOf(fasts, id).Some? && DateTimeText.ParseMinutes(end).None? ==> r == Failure(MalformedTime)
    ensures r.Success? <==> IndexOf(fasts, id).Some? && DateTimeText.ParseMinutes(end).Some?
    ensures r.Success? ==> |r.value| == |fasts|
    ensures r.Success? ==>
      var k := IndexOf(fasts, id).value;
      var g := r.value[k];
      && (forall j :: 0 <= j < |fasts| && j != k ==> r.value[j] == fasts[j])
      && g.endTime == DateTimeText.ParseMinutes(end)
      && g.(endTime := fasts[k].endTime, duration := fasts[k].duration) == fasts[k]
      && g.startTime == fasts[k].startTime && g.completed == fasts[k].completed && g.deleted == fasts[k].deleted
      && (g.completed ==> g.duration == Some(g.endTime.value - g.startTime))
      && (!g.completed ==> g.duration == fasts[k].duration)
  {
    match IndexOf(fasts, id)
    case None => Failure(NoSuchFast)
    case Some(k) =>
      match DateTimeText.ParseMinutes(end)
      case None => Failure(MalformedTime)
      case Some(t) => Success(fasts[k := CalculateDuration(fasts[k].(endTime := Some(t))).0])
  }

  /** Latest start first. */
  ghost predicate SortedByStartDesc(s: seq<Fast>)
  {
    forall i, j :: 0 <= i < j < |s| ==> s[i].startTime >= s[j].startTime
  }

  /** Puts `x` in front of the first fast that started no later than it. */
  function InsertByStart(x: Fast, s: seq<Fast>): (r: seq<Fast>)
    requires SortedByStartDesc(s)
    ensures SortedByStartDesc(r)
    ensures multiset(r) == multiset(s) + multiset{x}
    ensures |r| == |s| + 1
    ensures r[0] == x || (|s| > 0 && r[0] == s[0])
  {
    if |s| == 0 || x.startTime >= s[0].startTime then [x] + s
    else
      var rest := InsertByStart(x, s[1..]);
      assert s == [s[0]] + s[1..];
      [s[0]] + rest
  }

  /** Sorts by start time, latest first. */
  function SortByStartDesc(s: seq<Fast>): (r: seq<Fast>)
    ensures SortedByStartDesc(r)
    ensures multiset(r) == multiset(s)
  {
    if |s| == 0 then []
    else
      assert s == [s[0]] + s[1..];
      InsertByStart(s[0], SortByStartDesc(s[1..]))
  }

  /** `fast_history`: exactly the completed fasts that are not deleted,
      latest start first. */
  function FastHistory(fasts: seq<Fast>): (r: seq<Fast>)
    ensures SortedByStartDesc(r)
    ensures multiset(r) == multiset(Query.Where(fasts, Finished()))
    ensures forall f :: f in r <==> f in fasts && InHistory(f)
  {
    var done := Query.Where(fasts, Finished());
    var r := SortByStartDesc(done);
    assert forall f :: f in r <==> f in multiset(done);
    assert forall f :: f in fasts && InHistory(f) ==> f in done by {
      forall f | f in fasts && InHistory(f)
        ensures f in done
      {
        var i :| 0 <= i < |fasts| && fasts[i] == f;
      }
    }
    assert forall f :: f in done ==> f in fasts by {
      forall f | f in done
        ensures f in fasts
      {
        assert f in multiset(done);
      }
    }
    r
  }

  /** The figures `get_stats` reports, before they are rendered as text. */
  datatype Stats = Stats(
    fastCount: nat,
    lastEndTime: int,
    totalDuration: int,
    longestDuration: int,
    sinceLastEnd: int)

  function Dur(f: Fast): int
  {
    f.duration.GetOr(0)
  }

  function EndOf(f: Fast): int
  {
    f.endTime.GetOr(0)
  }

  /** Python's `sum` over the durations. */
  function TotalDuration(s: seq<Fast>): int
  {
    if |s| == 0 then 0 else Dur(s[0]) + TotalDuration(s[1..])
  }

  function Durations(s: seq<Fast>): (r: seq<int>)
    ensures |r| == |s|
  {
    seq(|s|, i requires 0 <= i < |s| => Dur(s[i]))
  }

  function EndTimes(s: seq<Fast>): (r: seq<int>)
    ensures |r| == |s|
  {
    seq(|s|, i requires 0 <= i < |s| => EndOf(s[i]))
  }

  /** The figures of a non-empty list of timed fasts. */
  function StatsOf(h: seq<Fast>, now: int): (r: Stats)
    requires |h| > 0
    requires forall i :: 0 <= i < |h| ==> h[i].endTime.Some? && h[i].duration.Some?
    ensures r.fastCount == |h| && r.totalDuration == TotalDuration(h)
    ensures exists i :: 0 <= i < |h| && h[i].duration == Some(r.longestDuration)
    ensures forall i :: 0 <= i < |h| ==> h[i].duration.value <= r.longestDuration
    ensures exists i :: 0 <= i < |h| && h[i].endTime == Some(r.lastEndTime)
    ensures forall i :: 0 <= i < |h| ==> h[i].endTime.value <= r.lastEndTime
    ensures r.sinceLastEnd == now - r.lastEndTime
  {
    var last := Query.Max(EndTimes(h));
    var longest := Query.Max(Durations(h));
    MaxOfTimed(h);
    Stats(|h|, last, TotalDuration(h), longest, now - last)
  }

  /** `get_stats`: nothing when the history is empty; otherwise the number
      of fasts in it, the latest end time and the time since, the sum of the
      durations and the longest duration. */
  function GetStats(fasts: seq<Fast>, now: int): (r: Option<Stats>)
    requires CompletedAreTimed(fasts)
    ensures r.None? <==> forall f :: f in fasts ==> !InHistory(f)
    ensures r.Some? ==> r.value.fastCount == |FastHistory(fasts)|
    ensures r.Some? ==> r.value.totalDuration == TotalDuration(FastHistory(fasts))
    ensures r.Some? ==> exists f :: f in FastHistory(fasts) && f.duration == Some(r.value.longestDuration)
    ensures r.Some? ==> forall f :: f in FastHistory(fasts) ==> Dur(f) <= r.value.longestDuration
    ensures r.Some? ==> exists f :: f in FastHistory(fasts) && f.endTime == Some(r.value.lastEndTime)
    ensures r.Some? ==> forall f :: f in FastHistory(fasts) ==> EndOf(f) <= r.value.lastEndTime
    ensures r.Some? ==> r.value.sinceLastEnd == now - r.value.lastEndTime
  {
    var h := FastHistory(fasts);
    HistoryEmptyIff(fasts);
    HistoryIsTimed(fasts);
    if |h| == 0 then None else Some(StatsOf(h, now))
  }

  /** The history is empty exactly when no fast is finished. */
  lemma HistoryEmptyIff(fasts: seq<Fast>)
    ensures |FastHistory(fasts)| == 0 <==> forall f :: f in fasts ==> !InHistory(f)
  {
    var h := FastHistory(fasts);
    if |h| > 0 {
      assert h[0] in h;
    }
  }

  /** Every fast in the history has its end time and duration. */
  lemma HistoryIsTimed(fasts: seq<Fast>)
    requires CompletedAreTimed(fasts)
    ensures forall i :: 0 <= i < |FastHistory(fasts)| ==>
      FastHistory(fasts)[i].endTime.Some? && FastHistory(fasts)[i].duration.Some?
  {
    var h := FastHistory(fasts);
    forall i | 0 <= i < |h|
      ensures h[i].endTime.Some? && h[i].duration.Some?
    {
      assert h[i] in h;
      var j :| 0 <= j < |fasts| && fasts[j] == h[i];
    }
  }

  /** The largest duration and end time are those of some fast in `h`. */
  lemma MaxOfTimed(h: seq<Fast>)
    requires |h| > 0
    requires forall i :: 0 <= i < |h| ==> h[i].endTime.Some? && h[i].duration.Some?
    ensures exists i :: 0 <= i < |h| && h[i].duration == Some(Query.Max(Durations(h)))
    ensures forall i :: 0 <= i < |h| ==> h[i].duration.value <= Query.Max(Durations(h))
    ensures exists i :: 0 <= i < |h| && h[i].endTime == Some(Query.Max(EndTimes(h)))
    ensures forall i :: 0 <= i < |h| ==> h[i].endTime.value <= Query.Max(EndTimes(h))
  {
    var ds, es := Durations(h), EndTimes(h);
    var m, e := Query.Max(ds), Query.Max(es);
    var i :| 0 <= i < |ds| && ds[i] == m;
    assert h[i].duration == Some(m);
    var j :| 0 <= j < |es| && es[j] == e;
    assert h[j].endTime == Some(e);
    assert forall k :: 0 <= k < |h| ==> ds[k] == h[k].duration.value && es[k] == h[k].endTime.value;
  }

  lemma {:induction false} TotalOfInsert(x: Fast, s: seq<Fast>)
    requires SortedByStartDesc(s)
    ensures TotalDuration(InsertByStart(x, s)) == Dur(x) + TotalDuration(s)
  {
    if |s| == 0 || x.startTime >= s[0].startTime {
      assert ([x] + s)[1..] == s;
    } else {
      TotalOfInsert(x, s[1..]);
      assert ([s[0]] + InsertByStart(x, s[1..]))[1..] == InsertByStart(x, s[1..]);
    }
  }

  lemma {:induction false} TotalOfSort(s: seq<Fast>)
    ensures TotalDuration(SortByStartDesc(s)) == TotalDuration(s)
  {
    if |s| > 0 {
      TotalOfSort(s[1..]);
      TotalOfInsert(s[0], SortByStartDesc(s[1..]));
    }
  }

  /** The statistics do not depend on the history's order: the count and the
      total are those of the finished fasts in table order. */
  lemma StatsMatchTable(fasts: seq<Fast>, now: int)
    requires CompletedAreTimed(fasts)
    requires GetStats(fasts, now).Some?
    ensures GetStats(fasts, now).value.fastCount == |Query.Where(fasts, Finished())|
    ensures GetStats(fasts, now).value.totalDuration == TotalDuration(Query.Where(fasts, Finished()))
  {
    var done := Query.Where(fasts, Finished());
    TotalOfSort(done);
    assert |multiset(FastHistory(fasts))| == |multiset(done)|;
  }

  /** Replacing one row by a row with the same id that is not running unless
      the old one was, and is timed if completed, keeps the table consistent. */
  lemma UpdateKeepsConsistent(fasts: seq<Fast>, k: nat, g: Fast)
    requires Consistent(fasts)
    requires k < |fasts| && g.id == fasts[k].id
    requires g.completed ==> g.endTime.Some? && g.duration.Some?
    requires IsLive(g) ==> IsLive(fasts[k])
    ensures Consistent(fasts[k := g])
  {
    var t := fasts[k := g];
    assert forall i :: 0 <= i < |t| && i != k ==> t[i] == fasts[i];
  }

  /** Every legacy operation keeps the table consistent: ids unique, completed
      fasts timed, at most one fast running. */
  lemma StartFastKeepsConsistent(fasts: seq<Fast>, start: string, duration: int)
    requires Consistent(fasts)
    ensures StartFast(fasts, start, duration).Success? ==> Consistent(StartFast(fasts, start, duration).value)
  {
    var r := StartFast(fasts, start, duration);
    if r.Success? {
      var t := r.value;
      var n := |fasts|;
      assert forall i :: 0 <= i < n ==> t[i] == fasts[i] && !IsLive(fasts[i]);
    }
  }

  lemma DeleteFastKeepsConsistent(fasts: seq<Fast>, id: int)
    requires Consistent(fasts)
    ensures DeleteFast(fasts, id).Success? ==> Consistent(DeleteFast(fasts, id).value)
  {
    if DeleteFast(fasts, id).Success? {
      var k := IndexOf(fasts, id).value;
      UpdateKeepsConsistent(fasts, k, fasts[k].(deleted := true));
    }
  }

  lemma EndFastKeepsConsistent(fasts: seq<Fast>, id: int, time: string, now: int)
    requires Consistent(fasts)
    ensures EndFast(fasts, id, time, now).Success? ==> Consistent(EndFast(fasts, id, time, now).value)
  {
    var r := EndFast(fasts, id, time, now);
    if r.Success? {
      var k := IndexOf(fasts, id).value;
      UpdateKeepsConsistent(fasts, k, r.value[k]);
      assert r.value == fasts[k := r.value[k]];
    }
  }

  lemma EditFastKeepsConsistent(fasts: seq<Fast>, id: int, start: string, duration: int)
    requires Consistent(fasts)
    ensures EditFast(fasts, id, start, duration).Success? ==> Consistent(EditFast(fasts, id, start, duration).value)
  {
    var r := EditFast(fasts, id, start, duration);
    if r.Success? {
      var k := IndexOf(fasts, id).value;
      UpdateKeepsConsistent(fasts, k, r.value[k]);
    }
  }

  lemma EditsKeepConsistent(fasts: seq<Fast>, id: int, s: string)
    requires Consistent(fasts)
    ensures EditStart(fasts, id, s).Success? ==> Consistent(EditStart(fasts, id, s).value)
    ensures EditEnd(fasts, id, s).Success? ==> Consistent(EditEnd(fasts, id, s).value)
    ensures EditStartIntended(fasts, id, s).Success? ==> Consistent(EditStartIntended(fasts, id, s).value)
    ensures EditEndIntended(fasts, id, s).Success? ==> Consistent(EditEndIntended(fasts, id, s).value)
  {
    match IndexOf(fasts, id)
    case None =>
    case Some(k) =>
      if DateTimeText.ParseMinutes(s).Some? {
        UpdateKeepsConsistent(fasts, k, EditStart(fasts, id, s).value[k]);
        UpdateKeepsConsistent(fasts, k, EditEnd(fasts, id, s).value[k]);
        UpdateKeepsConsistent(fasts, k, EditStartIntended(fasts, id, s).value[k]);
        UpdateKeepsConsistent(fasts, k, EditEndIntended(fasts, id, s).value[k]);
        assert EditStartIntended(fasts, id, s).value == fasts[k := EditStartIntended(fasts, id, s).value[k]];
        assert EditEndIntended(fasts, id, s).value == fasts[k := EditEndIntended(fasts, id, s).value[k]];
      }
  }

  /** Deleting the running fast frees the slot: a new start then succeeds
      whenever its time parses. */
  lemma DeleteThenStart(fasts: seq<Fast>, start: string, duration: int)
    requires Consistent(fasts)
    requires ActiveFast(fasts).Some?
    requires DateTimeText.ParseMinutes(start).Some?
    ensures DeleteFast(fasts, ActiveFast(fasts).value.id).Success?
    ensures StartFast(DeleteFast(fasts, ActiveFast(fasts).value.id).value, start, duration).Success?
  {
    var f := ActiveFast(fasts).value;
    var k := IndexOf(fasts, f.id).value;
    var live :| 0 <= live < |fasts| && fasts[live] == f;
    assert k == live;
    var t := DeleteFast(fasts, f.id).value;
    forall g | g in t
      ensures !IsLive(g)
    {
      var i :| 0 <= i < |t| && t[i] == g;
      if i != k {
        assert t[i] == fasts[i];
      }
    }
  }
}
