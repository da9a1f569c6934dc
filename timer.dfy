/**
  The timer record (Timer.kt): one row of the `timers` table. The in-memory
  `countDownTimer` handle is excluded from persistence, so it is not part of
  the record; the activity keeps it beside the record (see MainActivity).
 */
module TimerRecord {
  import opened KotlinStd

  datatype Timer = Timer(
    id: Int64,                           // auto-generated primary key
    name: string,
    initialDurationSeconds: Int32,
    remainingTimeSeconds: Int32,
    isRunning: bool,
    isCompleted: bool,
    temperatureCelsius: Option<real>,
    originalInputUnit: Option<string>,
    lastStartedTimestamp: Option<Int64>) // milliseconds since the epoch

  /** `Timer()`: every constructor parameter at its default. */
  const DEFAULT_TIMER: Timer := Timer(0, "", 0, 0, false, false, None, None, None)

  /**
    The invariants a well-formed record keeps: the remaining time lies within
    the initial duration, running and completed exclude each other, and a
    running record carries the time it was last started.
   */
  predicate Consistent(t: Timer) {
    && 0 <= t.remainingTimeSeconds <= t.initialDurationSeconds
    && !(t.isRunning && t.isCompleted)
    && (t.isRunning ==> t.lastStartedTimestamp.Some?)
  }

  /** The default record has id 0 (so it is given a fresh id on insert), is idle and holds no optional data. */
  lemma DefaultTimerIsIdle()
    ensures DEFAULT_TIMER.id == 0 && DEFAULT_TIMER.name == ""
    ensures DEFAULT_TIMER.initialDurationSeconds == DEFAULT_TIMER.remainingTimeSeconds == 0
    ensures !DEFAULT_TIMER.isRunning && !DEFAULT_TIMER.isCompleted
    ensures DEFAULT_TIMER.temperatureCelsius.None? && DEFAULT_TIMER.originalInputUnit.None?
    ensures DEFAULT_TIMER.lastStartedTimestamp.None?
    ensures Consistent(DEFAULT_TIMER)
  {
  }

  /**
    The completion rewrite `copy(remainingTimeSeconds = 0, isRunning = false,
    isCompleted = true)`, shared by the service and the activity.
   */
  function Completed(t: Timer): Timer {
    t.(remainingTimeSeconds := 0, isRunning := false, isCompleted := true)
  }

  /** Completion keeps the invariants of any record whose duration is not negative, and keeps its identity. */
  lemma CompletedConsistent(t: Timer)
    requires t.initialDurationSeconds >= 0
    ensures Consistent(Completed(t))
    ensures Completed(t).id == t.id && Completed(t).initialDurationSeconds == t.initialDurationSeconds
    ensures Completed(Completed(t)) == Completed(t)
  {
  }

  /** `indexOfFirst { it.id == id }`: the first position holding `id`, or -1. */
  function IndexOfFirstId(s: seq<Timer>, id: Int64): (i: int)
    ensures -1 <= i < |s|
    ensures i >= 0 ==> s[i].id == id
    ensures forall j :: 0 <= j < |s| && (i == -1 || j < i) ==> s[j].id != id
  {
    if s == [] then -1
    else if s[0].id == id then 0
    else
      var k := IndexOfFirstId(s[1..], id);
      if k == -1 then -1 else k + 1
  }

  /** `find { it.id == id }`: the first record holding `id`, or null. */
  function FindById(s: seq<Timer>, id: Int64): (r: Option<Timer>)
    ensures r.Some? ==> r.value in s && r.value.id == id
    ensures r.Some? ==> exists i :: 0 <= i < |s| && s[i] == r.value && forall j :: 0 <= j < i ==> s[j].id != id
    ensures r.None? ==> forall t :: t in s ==> t.id != id
  {
    var i := IndexOfFirstId(s, id);
    if i == -1 then None else Some(s[i])
  }

  predicate UniqueIds(s: seq<Timer>) {
    forall i, j :: 0 <= i < j < |s| ==> s[i].id != s[j].id
  }

  /** Ordered by id, strictly descending (`ORDER BY id DESC` over a primary key). */
  predicate DescendingIds(s: seq<Timer>) {
    forall i, j :: 0 <= i < j < |s| ==> s[i].id > s[j].id
  }
}
