/**
  The timer list of MainActivity.kt. The activity holds `timers`, a list of
  in-memory records; each carries the UI `CountDownTimer` that may be
  counting it down. The buttons start, stop and reset list records in place
  and write copies to the store; every emission of the stored records
  replaces the list. The add dialog validates its text fields and inserts a
  new record. Clock readings are not used here; the countdown's
  `millisUntilFinished` is a parameter of its tick.
 */
module MainActivity {
  import opened KotlinStd
  import opened TimerRecord
  import opened TimerDao
  import opened TimerService

  // ---------------------------------------------------------------------------
  // The add dialog
  // ---------------------------------------------------------------------------

  /** The unit every new record is entered in. */
  const CELSIUS: string := "Celsius"

  /**
    The positive button of the add dialog: the name is trimmed, the duration
    text (not trimmed) must parse as an `Int` above 0, and the duration in
    seconds is the `Int` product `durationMinutes * 60`. The temperature is
    already parsed (`toDoubleOrNull` of the trimmed text). `None` is the
    "invalid input" toast.
   */
  function NewTimerFromInput(nameText: string, durationText: string, temperatureCelsius: Option<real>): Option<Timer> {
    var name := Trim(nameText);
    var durationMinutes := ToIntOrNull(durationText);
    if name != [] && durationMinutes.Some? && durationMinutes.value > 0 then
      var seconds := ToInt(durationMinutes.value as int * 60);
      Some(Timer(0, name, seconds, seconds, false, false, temperatureCelsius, Some(CELSIUS), None))
    else
      None
  }

  /**
    An add is accepted exactly when the name has a character that is not
    whitespace and the duration parses to a positive `Int`.
   */
  lemma NewTimerFromInputAccepts(nameText: string, durationText: string, temperatureCelsius: Option<real>)
    ensures var r := NewTimerFromInput(nameText, durationText, temperatureCelsius);
      r.Some? <==>
        && (exists i :: 0 <= i < |nameText| && !IsWhitespace(nameText[i]))
        && ToIntOrNull(durationText).Some? && ToIntOrNull(durationText).value > 0
  {
    TrimEmptyIff(nameText);
  }

  /**
    The record an accepted add builds has id 0 (so the store gives it a
    fresh id), the trimmed name, both durations equal, no flags, no start
    time and the unit "Celsius"; below the overflow bound its durations are
    the minutes times 60 and it meets the record invariants.
   */
  lemma NewTimerFromInputSpec(nameText: string, durationText: string, temperatureCelsius: Option<real>)
    ensures var r := NewTimerFromInput(nameText, durationText, temperatureCelsius);
      r.Some? ==>
        var t := r.value;
        var minutes := ToIntOrNull(durationText).value;
        && t.id == 0 && t.name == Trim(nameText) && t.name != []
        && !IsWhitespace(t.name[0]) && !IsWhitespace(t.name[|t.name| - 1])
        && t.initialDurationSeconds == t.remainingTimeSeconds
        && !t.isRunning && !t.isCompleted
        && t.temperatureCelsius == temperatureCelsius && t.originalInputUnit == Some(CELSIUS)
        && t.lastStartedTimestamp.None?
        && (minutes <= INT_MAX / 60 ==> t.initialDurationSeconds == minutes * 60 > 0 && Consistent(t))
  {
    var r := NewTimerFromInput(nameText, durationText, temperatureCelsius);
    if r.Some? {
      var minutes := ToIntOrNull(durationText).value;
      var seconds := ToInt(minutes as int * 60);
      assert r.value == Timer(0, Trim(nameText), seconds, seconds, false, false, temperatureCelsius, Some(CELSIUS), None);
      if minutes <= INT_MAX / 60 {
        assert 0 < minutes * 60 <= INT_MAX;
      }
    }
  }

  /** Typing back a trimmed name and the decimal spelling of a duration in range yields exactly that record. */
  lemma NewTimerFromInputRoundTrip(name: string, minutes: Int32, temperatureCelsius: Option<real>)
    requires name != [] && Trim(name) == name
    requires 0 < minutes <= INT_MAX / 60
    ensures NewTimerFromInput(name, ToStr(minutes), temperatureCelsius) ==
      Some(Timer(0, name, minutes * 60, minutes * 60, false, false, temperatureCelsius, Some(CELSIUS), None))
  {
    ToIntOrNullRoundTrip(minutes);
  }

  /**
    The `Int` product wraps: any name with a visible character and a
    duration reading 35791395 minutes is accepted and gives a record with a
    negative duration.
   */
  lemma NewTimerFromInputWraps(nameText: string, durationText: string, temperatureCelsius: Option<real>)
    requires Trim(nameText) != [] && ToIntOrNull(durationText) == Some(35791395)
    ensures var r := NewTimerFromInput(nameText, durationText, temperatureCelsius);
      r.Some? && r.value.initialDurationSeconds == -2147483596 && !Consistent(r.value)
  {
    ToIntJustAboveMax(35791395 * 60);
  }

  // ---------------------------------------------------------------------------
  // Record rewrites of the buttons
  // ---------------------------------------------------------------------------

  /** The copy `startTimer` writes: a completed record starts over; the start time is not touched. */
  function ActivityStartedCopy(t: Timer): Timer {
    t.(remainingTimeSeconds := if t.isCompleted then t.initialDurationSeconds else t.remainingTimeSeconds,
       isRunning := true, isCompleted := false)
  }

  /** `stopTimer`'s change: running is cleared, the start time is kept. */
  function ActivityStoppedCopy(t: Timer): Timer {
    t.(isRunning := false)
  }

  /** `resetTimer`'s change, after its stop: the full duration, no flags, the start time kept. */
  function ActivityResetCopy(t: Timer): Timer {
    t.(remainingTimeSeconds := t.initialDurationSeconds, isRunning := false, isCompleted := false)
  }

  /**
    The activity's rewrites agree with the service's START, STOP and RESET
    commands in every field but the start time, which the activity leaves as
    it was.
   */
  lemma ActivityRewritesMatchService(t: Timer, now: Int64)
    ensures ActivityStartedCopy(t) == StartedCopy(t, now).(lastStartedTimestamp := t.lastStartedTimestamp)
    ensures ActivityStoppedCopy(t) == StoppedCopy(t).(lastStartedTimestamp := t.lastStartedTimestamp)
    ensures ActivityResetCopy(t) == ResetCopy(t).(lastStartedTimestamp := t.lastStartedTimestamp)
    ensures ActivityResetCopy(ActivityStartedCopy(t)) == ActivityResetCopy(t)
  {
  }

  /**
    A record the activity starts keeps no start time of its own, so when the
    service resumes it the time left is computed from the initial duration
    and whatever start time the record already had: with none, the full
    duration; with one at least the duration ago, none at all.
   */
  lemma ActivityStartResumption(t: Timer, now: Int64)
    requires t.initialDurationSeconds >= 0
    ensures t.lastStartedTimestamp.None? ==> ResumedRemaining(ActivityStartedCopy(t), now) == t.initialDurationSeconds
    ensures t.lastStartedTimestamp.Some? && 0 <= now - t.lastStartedTimestamp.value <= 0x8000_0000 * 1000
            && Div(now - t.lastStartedTimestamp.value, 1000) >= t.initialDurationSeconds ==>
              ResumedRemaining(ActivityStartedCopy(t), now) == 0
  {
    var s := ActivityStartedCopy(t);
    assert s == t.(remainingTimeSeconds := s.remainingTimeSeconds, isRunning := true, isCompleted := false);
    ResumedIgnoresRemaining(t.(isRunning := true, isCompleted := false), now, s.remainingTimeSeconds);
    assert ResumedRemaining(s, now) == ResumedRemaining(t.(isRunning := true, isCompleted := false), now);
    if t.lastStartedTimestamp.None? {
      ResumedWithoutTimestamp(s, now);
    } else if 0 <= now - t.lastStartedTimestamp.value <= 0x8000_0000 * 1000 {
      ResumedBounded(s, now);
    }
  }

  /** The activity's rewrites keep the record invariants (reset needs a duration that is not negative). */
  lemma ActivityRewritesKeepConsistent(t: Timer)
    requires Consistent(t)
    ensures Consistent(ActivityStoppedCopy(t))
    ensures Consistent(ActivityResetCopy(t))
    ensures t.lastStartedTimestamp.Some? ==> Consistent(ActivityStartedCopy(t))
  {
  }

  // ---------------------------------------------------------------------------
  // The in-memory records and their countdowns
  // ---------------------------------------------------------------------------

  /** A list element: the stored fields of a `Timer` and its `@Ignore` countdown. */
  class TimerEntry {
    var record: Timer
    var countDownTimer: Option<UiCountdown>

    /** A record as the store hands it over: no countdown. */
    constructor (record: Timer)
      ensures this.record == record && countDownTimer == None
    {
      this.record := record;
      countDownTimer := None;
    }
  }

  /**
    The `CountDownTimer` `startTimer` creates. It captured the list element
    `timer` and the activity's store. `running` holds from `start()` until
    `cancel()` or `onFinish`; the platform calls back only while it holds.
   */
  class UiCountdown {
    const timer: TimerEntry
    const timerDao: TimerTable
    const millisInFuture: int
    var running: bool

    constructor (timer: TimerEntry, timerDao: TimerTable, millisInFuture: int)
      ensures this.timer == timer && this.timerDao == timerDao && this.millisInFuture == millisInFuture
      ensures !running
    {
      this.timer := timer;
      this.timerDao := timerDao;
      this.millisInFuture := millisInFuture;
      running := false;
    }

    /** `start()`: with no time to count, `onFinish` is called at once. */
    method Start()
      requires timerDao.Valid()
      modifies this, timer, timerDao
      ensures timerDao.Valid()
      ensures millisInFuture > 0 ==> running && unchanged(timer, timerDao)
      ensures millisInFuture <= 0 ==>
        && !running
        && timer.record == Completed(old(timer.record)) && timer.countDownTimer == None
        && timerDao.rows == Updated(old(timerDao.rows), Completed(old(timer.record)))
        && timerDao.sequence == old(timerDao.sequence)
    {
      running := true;
      if millisInFuture <= 0 {
        OnFinish();
      }
    }

    /** `cancel()`: no further callbacks. */
    method Cancel()
      modifies this
      ensures !running
    {
      running := false;
    }

    /** `onTick`: the list element's remaining time becomes the whole seconds left. */
    method OnTick(millisUntilFinished: Int64)
      requires running
      modifies timer
      ensures timer.record == TickedCopy(old(timer.record), millisUntilFinished)
      ensures timer.countDownTimer == old(timer.countDownTimer)
    {
      timer.record := timer.record.(remainingTimeSeconds := ToInt(Div(millisUntilFinished, 1000)));
    }

    /**
      `onFinish`: the list element is completed in place, loses its
      countdown (whichever it holds), and its completed copy is written.
     */
    method OnFinish()
      requires running && timerDao.Valid()
      modifies this, timer, timerDao
      ensures !running
      ensures timer.record == Completed(old(timer.record)) && timer.countDownTimer == None
      ensures timerDao.Valid()
      ensures timerDao.rows == Updated(old(timerDao.rows), Completed(old(timer.record)))
      ensures timerDao.sequence == old(timerDao.sequence)
    {
      timer.record := timer.record.(remainingTimeSeconds := 0, isRunning := false, isCompleted := true);
      timer.countDownTimer := None;
      timerDao.UpdateTimer(timer.record.(isRunning := false, isCompleted := true, remainingTimeSeconds := 0));
      running := false;
    }
  }

  /**
    The records of a list of elements, in order. The contract is what the
    proofs of the button handlers use to follow one element's record across
    a change of the heap.
   */
  function RecordsOf(es: seq<TimerEntry>): (r: seq<Timer>)
    reads es
    ensures |r| == |es| && forall i :: 0 <= i < |es| ==> r[i] == es[i].record
  {
    seq(|es|, i reads es requires 0 <= i < |es| => es[i].record)
  }

  /** The countdowns some element of the list holds. */
  ghost function CountdownsOf(es: seq<TimerEntry>): set<UiCountdown>
    reads es
  {
    set e | e in es && e.countDownTimer.Some? :: e.countDownTimer.value
  }

  /**
    What `startTimer` leaves for a list element that held `t` and was not
    running: a new countdown of the time to start, in milliseconds, and the
    started copy in the store. With no time to start, the countdown finishes
    inside `start()`, so the element and the store hold the completed
    record, and the element still gets the finished countdown.
   */
  ghost predicate StartedFrom(t: Timer, timer: TimerEntry, timerDao: TimerTable, rowsBefore: map<Int64, Timer>)
    reads timer, timerDao, if timer.countDownTimer.Some? then {timer.countDownTimer.value} else {}
  {
    var timeToStart := if t.isCompleted then t.initialDurationSeconds else t.remainingTimeSeconds;
    && timer.countDownTimer.Some?
    && var c := timer.countDownTimer.value;
    && c.timer == timer && c.timerDao == timerDao && c.millisInFuture == timeToStart * 1000
    && (timeToStart > 0 ==>
          c.running && timer.record == t && timerDao.rows == Updated(rowsBefore, ActivityStartedCopy(t)))
    && (timeToStart <= 0 ==>
          !c.running && timer.record == Completed(t) && timerDao.rows == Updated(rowsBefore, Completed(t)))
  }

  // ---------------------------------------------------------------------------
  // The activity
  // ---------------------------------------------------------------------------

  class Activity {
    /** The list the adapter shows. */
    var timers: seq<TimerEntry>
    /** The `timers` table. */
    const timerDao: TimerTable

    /** The store is well formed and no element appears twice in the list. */
    ghost predicate Valid()
      reads this, timerDao
    {
      && timerDao.Valid()
      && forall i, j :: 0 <= i < j < |timers| ==> timers[i] != timers[j]
    }

    /** `onCreate`: the list starts empty. */
    constructor (dao: TimerTable)
      requires dao.Valid()
      ensures Valid() && timerDao == dao && timers == []
    {
      timerDao := dao;
      timers := [];
    }

    /** `startTimer`. */
    method StartTimer(timerId: Int64)
      requires Valid()
      modifies timers, timerDao
      ensures Valid() && timers == old(timers)
      ensures timerDao.sequence == old(timerDao.sequence)
      ensures var i := IndexOfFirstId(old(RecordsOf(timers)), timerId);
        i == -1 || old(timers[i].record.isRunning) ==>
          && RecordsOf(timers) == old(RecordsOf(timers)) && timerDao.rows == old(timerDao.rows)
          && forall j :: 0 <= j < |timers| ==> timers[j].countDownTimer == old(timers[j].countDownTimer)
      ensures var i := IndexOfFirstId(old(RecordsOf(timers)), timerId);
        i != -1 && !old(timers[i].record.isRunning) ==>
          && (forall j :: 0 <= j < |timers| && j != i ==> timers[j].countDownTimer == old(timers[j].countDownTimer))
          && RecordsOf(timers) == old(RecordsOf(timers))[i := timers[i].record]
          && StartedFrom(old(timers[i].record), timers[i], timerDao, old(timerDao.rows))
    {
      var index := IndexOfFirstId(RecordsOf(timers), timerId);
      if index != -1 {
        var timer := timers[index];
        if !timer.record.isRunning {
          StartFound(timer);
          assert forall j :: 0 <= j < |timers| && j != index ==> timers[j] != timer;
        }
      }
    }

    /** The body of `startTimer` for a list element that is not running. */
    method StartFound(timer: TimerEntry)
      requires timerDao.Valid() && !timer.record.isRunning
      modifies timer, timerDao
      ensures timerDao.Valid() && timerDao.sequence == old(timerDao.sequence)
      ensures StartedFrom(old(timer.record), timer, timerDao, old(timerDao.rows))
    {
      var timeToStart := if timer.record.isCompleted then timer.record.initialDurationSeconds else timer.record.remainingTimeSeconds;
      var updatedTimer := timer.record.(remainingTimeSeconds := timeToStart, isRunning := true, isCompleted := false);
      timerDao.UpdateTimer(updatedTimer);
      ghost var rec := timer.record;
      var countdown := new UiCountdown(timer, timerDao, timeToStart * 1000);
      countdown.Start();
      if timeToStart <= 0 {
        UpdatedTwice(old(timerDao.rows), updatedTimer, Completed(rec));
      }
      timer.countDownTimer := Some(countdown);
    }

    /** The countdown held by the first element with `timerId`, if any: the only one a stop may cancel. */
    ghost function HeldCountdown(timerId: Int64): set<UiCountdown>
      reads this, timers
    {
      var i := IndexOfFirstId(RecordsOf(timers), timerId);
      if i != -1 && timers[i].countDownTimer.Some? then {timers[i].countDownTimer.value} else {}
    }

    /** `stopTimer`. */
    method StopTimer(timerId: Int64)
      requires Valid()
      modifies timers, timerDao, HeldCountdown(timerId)
      ensures Valid() && timers == old(timers)
      ensures timerDao.sequence == old(timerDao.sequence)
      ensures var i := IndexOfFirstId(old(RecordsOf(timers)), timerId);
        i == -1 || !old(timers[i].record.isRunning) ==>
          && RecordsOf(timers) == old(RecordsOf(timers)) && timerDao.rows == old(timerDao.rows)
          && forall j :: 0 <= j < |timers| ==> timers[j].countDownTimer == old(timers[j].countDownTimer)
      ensures var i := IndexOfFirstId(old(RecordsOf(timers)), timerId);
        i != -1 && !old(timers[i].record.isRunning) && old(timers[i].countDownTimer).Some? ==>
          unchanged(old(timers[i].countDownTimer).value)
      ensures var i := IndexOfFirstId(old(RecordsOf(timers)), timerId);
        i != -1 && old(timers[i].record.isRunning) ==>
          var t := old(timers[i].record);
          var held := old(timers[i].countDownTimer);
          && RecordsOf(timers) == old(RecordsOf(timers))[i := ActivityStoppedCopy(t)]
          && timerDao.rows == Updated(old(timerDao.rows), ActivityStoppedCopy(t))
          && timers[i].countDownTimer == None
          && (forall j :: 0 <= j < |timers| && j != i ==> timers[j].countDownTimer == old(timers[j].countDownTimer))
          && (held.Some? ==> !held.value.running)
    {
      var index := IndexOfFirstId(RecordsOf(timers), timerId);
      if index != -1 {
        var timer := timers[index];
        if timer.record.isRunning {
          StopFound(timer);
          assert forall j :: 0 <= j < |timers| && j != index ==> timers[j] != timer;
        }
      }
    }

    /** The body of `stopTimer` for a running list element. */
    method StopFound(timer: TimerEntry)
      requires timerDao.Valid() && timer.record.isRunning
      modifies timer, timerDao, if timer.countDownTimer.Some? then {timer.countDownTimer.value} else {}
      ensures timerDao.Valid() && timerDao.sequence == old(timerDao.sequence)
      ensures timer.record == ActivityStoppedCopy(old(timer.record)) && timer.countDownTimer == None
      ensures timerDao.rows == Updated(old(timerDao.rows), ActivityStoppedCopy(old(timer.record)))
      ensures old(timer.countDownTimer).Some? ==> !old(timer.countDownTimer).value.running
    {
      if timer.countDownTimer.Some? {
        timer.countDownTimer.value.Cancel();
      }
      timer.record := timer.record.(isRunning := false);
      timer.countDownTimer := None;
      timerDao.UpdateTimer(timer.record.(isRunning := false));
    }

    /** `resetTimer`: stop, then the full duration and no completion, in place and in the store. */
    method ResetTimer(timerId: Int64)
      requires Valid()
      modifies timers, timerDao, HeldCountdown(timerId)
      ensures Valid() && timers == old(timers)
      ensures timerDao.sequence == old(timerDao.sequence)
      ensures var i := IndexOfFirstId(old(RecordsOf(timers)), timerId);
        i == -1 ==>
          && RecordsOf(timers) == old(RecordsOf(timers)) && timerDao.rows == old(timerDao.rows)
          && forall j :: 0 <= j < |timers| ==> timers[j].countDownTimer == old(timers[j].countDownTimer)
      ensures var i := IndexOfFirstId(old(RecordsOf(timers)), timerId);
        i != -1 ==>
          var t := old(timers[i].record);
          var held := old(timers[i].countDownTimer);
          && RecordsOf(timers) == old(RecordsOf(timers))[i := ActivityResetCopy(t)]
          && timerDao.rows == Updated(old(timerDao.rows), ActivityResetCopy(t))
          && (forall j :: 0 <= j < |timers| && j != i ==> timers[j].countDownTimer == old(timers[j].countDownTimer))
          && (t.isRunning ==> timers[i].countDownTimer == None && (held.Some? ==> !held.value.running))
          && (!t.isRunning ==> timers[i].countDownTimer == held && (held.Some? ==> unchanged(held.value)))
    {
      var index := IndexOfFirstId(RecordsOf(timers), timerId);
      if index != -1 {
        ResetListed(timerId, index);
      }
    }

    /** The body of `resetTimer` once the element is found at `index`. */
    method ResetListed(timerId: Int64, index: int)
      requires Valid() && index != -1 && index == IndexOfFirstId(RecordsOf(timers), timerId)
      modifies timers, timerDao, HeldCountdown(timerId)
      ensures Valid() && timers == old(timers)
      ensures timerDao.sequence == old(timerDao.sequence)
      ensures var t := old(timers[index].record);
        var held := old(timers[index].countDownTimer);
        && RecordsOf(timers) == old(RecordsOf(timers))[index := ActivityResetCopy(t)]
        && timerDao.rows == Updated(old(timerDao.rows), ActivityResetCopy(t))
        && (forall j :: 0 <= j < |timers| && j != index ==> timers[j].countDownTimer == old(timers[j].countDownTimer))
        && (t.isRunning ==> timers[index].countDownTimer == None && (held.Some? ==> !held.value.running))
        && (!t.isRunning ==> timers[index].countDownTimer == held && (held.Some? ==> unchanged(held.value)))
    {
      var timer := timers[index];
      ghost var t := timer.record;
      StopTimer(timerId);
      ResetFound(timer);
      assert forall j :: 0 <= j < |timers| && j != index ==> timers[j] != timer;
      assert timer.record == ActivityResetCopy(t);
      if t.isRunning {
        UpdatedTwice(old(timerDao.rows), ActivityStoppedCopy(t), ActivityResetCopy(t));
      }
    }

    /** The part of `resetTimer` after its stop: the element gets its full duration and loses its completion. */
    method ResetFound(timer: TimerEntry)
      requires timerDao.Valid()
      modifies timer, timerDao
      ensures timerDao.Valid() && timerDao.sequence == old(timerDao.sequence)
      ensures timer.record == old(timer.record).(remainingTimeSeconds := old(timer.record).initialDurationSeconds, isCompleted := false)
      ensures timer.countDownTimer == old(timer.countDownTimer)
      ensures timerDao.rows == Updated(old(timerDao.rows), timer.record)
    {
      timer.record := timer.record.(remainingTimeSeconds := timer.record.initialDurationSeconds, isCompleted := false);
      timerDao.UpdateTimer(timer.record.(remainingTimeSeconds := timer.record.initialDurationSeconds, isCompleted := false));
    }

    /** Cancels every countdown the list holds (the first step of a reload, and `onDestroy`). */
    method CancelAllCountdowns()
      requires Valid()
      modifies CountdownsOf(timers)
      ensures forall c :: c in old(CountdownsOf(timers)) ==> !c.running
    {
      var k := 0;
      while k < |timers|
        invariant 0 <= k <= |timers|
        invariant forall j :: 0 <= j < k && timers[j].countDownTimer.Some? ==> !timers[j].countDownTimer.value.running
      {
        if timers[k].countDownTimer.Some? {
          timers[k].countDownTimer.value.Cancel();
        }
        k := k + 1;
      }
    }

    /**
      The collector of `getAllTimers()`: every countdown is cancelled and the
      list becomes the loaded records, in their order, as fresh elements
      with no countdown.
     */
    method OnTimersLoaded(loadedTimers: seq<Timer>)
      requires Valid()
      modifies this, CountdownsOf(timers)
      ensures Valid()
      ensures RecordsOf(timers) == loadedTimers
      ensures forall j :: 0 <= j < |timers| ==> fresh(timers[j]) && timers[j].countDownTimer == None
      ensures forall c :: c in old(CountdownsOf(timers)) ==> !c.running
      ensures timerDao.rows == old(timerDao.rows)
    {
      CancelAllCountdowns();
      var loaded: seq<TimerEntry> := [];
      var i := 0;
      while i < |loadedTimers|
        invariant 0 <= i <= |loadedTimers| && |loaded| == i
        invariant forall j :: 0 <= j < i ==> fresh(loaded[j]) && loaded[j].record == loadedTimers[j] && loaded[j].countDownTimer == None
        invariant forall j, k :: 0 <= j < k < i ==> loaded[j] != loaded[k]
        invariant forall c :: c in old(CountdownsOf(timers)) ==> !c.running
      {
        var e := new TimerEntry(loadedTimers[i]);
        loaded := loaded + [e];
        i := i + 1;
      }
      timers := loaded;
    }

    /**
      The add dialog's positive button: a valid input is inserted as a new
      row (a full table makes the insert throw, which is caught and logged);
      the list itself waits for the next emission.
     */
    method AddTimer(nameText: string, durationText: string, temperatureCelsius: Option<real>) returns (accepted: bool)
      requires Valid()
      modifies timerDao
      ensures Valid()
      ensures accepted <==> NewTimerFromInput(nameText, durationText, temperatureCelsius).Some?
      ensures accepted && old(timerDao.sequence) < LONG_MAX ==>
        var id := old(timerDao.sequence) + 1;
        && id !in old(timerDao.rows)
        && timerDao.rows == old(timerDao.rows)[id := NewTimerFromInput(nameText, durationText, temperatureCelsius).value.(id := id)]
        && timerDao.sequence == id
      ensures !accepted || old(timerDao.sequence) == LONG_MAX ==>
        timerDao.rows == old(timerDao.rows) && timerDao.sequence == old(timerDao.sequence)
    {
      var newTimer := NewTimerFromInput(nameText, durationText, temperatureCelsius);
      if newTimer.Some? {
        var newId := timerDao.InsertTimer(newTimer.value);
        accepted := true;
      } else {
        accepted := false;
      }
    }
  }
}
