/**
  The background service of TimerService.kt. The service keeps one countdown
  per running record in `activeCountDownTimers`. On every change of the
  stored records it runs a reconciliation pass over them. The start command
  only rewrites the stored record and leaves its countdown to the next pass;
  the stop and reset commands also cancel and remove that id's countdown.
  Clock readings and the countdown's `millisUntilFinished` are parameters.
 */
module TimerService {
  import opened KotlinStd
  import opened TimerRecord
  import opened TimerDao

  /** `Service.START_STICKY`, what `onStartCommand` always returns. */
  const START_STICKY: int := 1

  const ACTION_START_TIMER_SERVICE: string := "com.catto.cookietimer.ACTION_START_TIMER_SERVICE"
  const ACTION_STOP_TIMER_SERVICE: string := "com.catto.cookietimer.ACTION_STOP_TIMER_SERVICE"
  const ACTION_START_TIMER: string := "com.catto.cookietimer.ACTION_START_TIMER"
  const ACTION_STOP_TIMER: string := "com.catto.cookietimer.ACTION_STOP_TIMER"
  const ACTION_RESET_TIMER: string := "com.catto.cookietimer.ACTION_RESET_TIMER"

  /**
    A started `CountDownTimer`. It counts down `millisInFuture` milliseconds
    and its callbacks write copies of `timer`, the record it was started
    for.
   */
  datatype Countdown = Countdown(timer: Timer, millisInFuture: int)

  /** Each countdown is filed under its record's id and has time left to run. */
  predicate CountdownsWellFormed(m: map<Int64, Countdown>) {
    forall id :: id in m ==>
      m[id].timer.id == id
      && m[id].millisInFuture == m[id].timer.remainingTimeSeconds * 1000
      && m[id].millisInFuture > 0
  }

  // ---------------------------------------------------------------------------
  // Record rewrites
  // ---------------------------------------------------------------------------

  /** The START command's copy: a completed record starts over from its full duration. */
  function StartedCopy(t: Timer, now: Int64): Timer {
    t.(remainingTimeSeconds := if t.isCompleted then t.initialDurationSeconds else t.remainingTimeSeconds,
       isRunning := true, isCompleted := false, lastStartedTimestamp := Some(now))
  }

  /** The STOP command's copy. */
  function StoppedCopy(t: Timer): Timer {
    t.(isRunning := false, lastStartedTimestamp := None)
  }

  /** The RESET command's copy. */
  function ResetCopy(t: Timer): Timer {
    t.(remainingTimeSeconds := t.initialDurationSeconds, isRunning := false,
       isCompleted := false, lastStartedTimestamp := None)
  }

  /** What a tick writes: the countdown's record with the whole seconds left. */
  function TickedCopy(t: Timer, millisUntilFinished: Int64): Timer {
    t.(remainingTimeSeconds := ToInt(Div(millisUntilFinished, 1000)))
  }

  /** START changes the remaining time, the two flags and the start time, and nothing else. */
  lemma StartedCopySpec(t: Timer, now: Int64)
    ensures var s := StartedCopy(t, now);
      && s.remainingTimeSeconds == (if t.isCompleted then t.initialDurationSeconds else t.remainingTimeSeconds)
      && s.isRunning && !s.isCompleted && s.lastStartedTimestamp == Some(now)
      && s.(remainingTimeSeconds := t.remainingTimeSeconds, isRunning := t.isRunning,
            isCompleted := t.isCompleted, lastStartedTimestamp := t.lastStartedTimestamp) == t
  {
  }

  /** All three commands keep the record invariants. */
  lemma CommandsKeepConsistent(t: Timer, now: Int64)
    requires Consistent(t)
    ensures Consistent(StartedCopy(t, now))
    ensures Consistent(StoppedCopy(t))
    ensures Consistent(ResetCopy(t))
  {
  }

  /** Stopping a started record keeps its progress: remaining and completed are those of the start. */
  lemma StopAfterStartKeepsProgress(t: Timer, now: Int64)
    requires !t.isCompleted
    ensures StoppedCopy(StartedCopy(t, now)) == t.(isRunning := false, lastStartedTimestamp := None)
  {
  }

  /** RESET forgets every earlier command and every completion: its copy depends on the record's identity and settings only. */
  lemma ResetAbsorbs(t: Timer, now: Int64)
    ensures ResetCopy(StartedCopy(t, now)) == ResetCopy(t)
    ensures ResetCopy(StoppedCopy(t)) == ResetCopy(t)
    ensures ResetCopy(Completed(t)) == ResetCopy(t)
    ensures ResetCopy(ResetCopy(t)) == ResetCopy(t)
  {
  }

  /**
    A tick reported within the countdown's span keeps the record invariants
    and never raises the remaining time above the one the countdown started
    with.
   */
  lemma TickKeepsConsistent(c: Countdown, millisUntilFinished: Int64)
    requires Consistent(c.timer) && c.millisInFuture == c.timer.remainingTimeSeconds * 1000
    requires 0 <= millisUntilFinished <= c.millisInFuture
    ensures Consistent(TickedCopy(c.timer, millisUntilFinished))
    ensures 0 <= TickedCopy(c.timer, millisUntilFinished).remainingTimeSeconds <= c.timer.remainingTimeSeconds
  {
    var q := Div(millisUntilFinished, 1000);
    assert q * 1000 <= millisUntilFinished;
    assert q <= c.timer.remainingTimeSeconds;
  }

  // ---------------------------------------------------------------------------
  // Resumption arithmetic
  // ---------------------------------------------------------------------------

  /** `now - (lastStartedTimestamp ?: now)`, a `Long` subtraction. */
  function ElapsedMillis(t: Timer, now: Int64): Int64 {
    match t.lastStartedTimestamp
    case None => 0
    case Some(started) => WrapLong(now - started)
  }

  /**
    `(initialDurationSeconds - elapsed / 1000).toInt().coerceAtLeast(0)`:
    the `Long` difference cannot overflow, the `toInt()` keeps the low 32 bits.
   */
  function ResumedRemaining(t: Timer, now: Int64): (r: Int32)
    ensures r >= 0
  {
    var v := ToInt(t.initialDurationSeconds - Div(ElapsedMillis(t, now), 1000));
    if v < 0 then 0 else v
  }

  /** A record with no start time resumes with its whole duration. */
  lemma ResumedWithoutTimestamp(t: Timer, now: Int64)
    requires t.lastStartedTimestamp.None?
    ensures ResumedRemaining(t, now) == if t.initialDurationSeconds < 0 then 0 else t.initialDurationSeconds
  {
  }

  /**
    Away from wrap-around, the resumed time is the initial duration less the
    whole seconds since the start (rounded toward zero), floored at 0.
   */
  lemma ResumedFormula(t: Timer, now: Int64)
    requires t.lastStartedTimestamp.Some?
    requires LONG_MIN <= now - t.lastStartedTimestamp.value <= LONG_MAX
    requires INT_MIN <= t.initialDurationSeconds - Div(now - t.lastStartedTimestamp.value, 1000) <= INT_MAX
    ensures var v := t.initialDurationSeconds - Div(now - t.lastStartedTimestamp.value, 1000);
      ResumedRemaining(t, now) == if v < 0 then 0 else v
  {
  }

  /** The base of the resumption is the initial duration: the stored remaining time plays no part. */
  lemma ResumedIgnoresRemaining(t: Timer, now: Int64, remaining: Int32)
    ensures ResumedRemaining(t.(remainingTimeSeconds := remaining), now) == ResumedRemaining(t, now)
  {
  }

  /**
    With a clock that has not gone backwards since the start, the resumed time
    is never more than the initial duration, and it is 0 exactly when at least
    the initial duration in whole seconds has passed.
   */
  lemma ResumedBounded(t: Timer, now: Int64)
    requires t.initialDurationSeconds >= 0 && t.lastStartedTimestamp.Some?
    requires 0 <= now - t.lastStartedTimestamp.value <= 0x8000_0000 * 1000
    ensures ResumedRemaining(t, now) <= t.initialDurationSeconds
    ensures ResumedRemaining(t, now) == 0 <==> Div(now - t.lastStartedTimestamp.value, 1000) >= t.initialDurationSeconds
  {
    var e := now - t.lastStartedTimestamp.value;
    assert ElapsedMillis(t, now) == e;
    var q := Div(e, 1000);
    assert 0 <= q <= 0x8000_0000 by {
      assert q * 1000 <= e;
    }
  }

  /**
    A START of a paused record followed by the pass that resumes it at the
    same instant: the countdown restarts from the full duration, not from the
    time left when it was paused.
   */
  lemma PausedStartResumesFromInitial(t: Timer, now: Int64)
    requires Consistent(t) && !t.isCompleted && t.initialDurationSeconds > 0
    ensures ResumedRemaining(StartedCopy(t, now), now) == t.initialDurationSeconds
    ensures t.remainingTimeSeconds < t.initialDurationSeconds ==>
      ResumedRemaining(StartedCopy(t, now), now) != StartedCopy(t, now).remainingTimeSeconds
  {
    assert ElapsedMillis(StartedCopy(t, now), now) == 0;
  }

  /**
    The resumption the record's remaining time calls for: the remaining time
    less the whole seconds since the start, floored at 0, with the same
    `Long` and `toInt()` arithmetic. The two fields must describe the same
    moment, so every write of the remaining time also restamps the start
    (`RestampedTickCopy`); with the tick as written the elapsed time is
    counted twice (`ResumeFromRemainingNeedsRestamp`).
   */
  function ResumedFromRemaining(t: Timer, now: Int64): (r: Int32)
    ensures r >= 0
  {
    var v := ToInt(t.remainingTimeSeconds - Div(ElapsedMillis(t, now), 1000));
    if v < 0 then 0 else v
  }

  /** Resumed at the instant of a START, a record goes on from exactly the time START wrote. */
  lemma StartResumesFromRemaining(t: Timer, now: Int64)
    requires Consistent(t)
    ensures ResumedFromRemaining(StartedCopy(t, now), now) == StartedCopy(t, now).remainingTimeSeconds
    ensures ResumedFromRemaining(StartedCopy(t, now), now) == if t.isCompleted then t.initialDurationSeconds else t.remainingTimeSeconds
  {
    assert ElapsedMillis(StartedCopy(t, now), now) == 0;
  }

  /**
    With a clock that has not gone backwards since the start, the corrected
    resumption never exceeds the remaining time, and it is 0 exactly when at
    least that many whole seconds have passed.
   */
  lemma ResumedFromRemainingBounded(t: Timer, now: Int64)
    requires t.remainingTimeSeconds >= 0 && t.lastStartedTimestamp.Some?
    requires 0 <= now - t.lastStartedTimestamp.value <= 0x8000_0000 * 1000
    ensures ResumedFromRemaining(t, now) <= t.remainingTimeSeconds
    ensures ResumedFromRemaining(t, now) == 0 <==> Div(now - t.lastStartedTimestamp.value, 1000) >= t.remainingTimeSeconds
  {
    var e := now - t.lastStartedTimestamp.value;
    assert ElapsedMillis(t, now) == e;
    var q := Div(e, 1000);
    assert 0 <= q <= 0x8000_0000 by {
      assert q * 1000 <= e;
    }
  }

  /**
    The tick write the resumption from the remaining time needs: the whole
    seconds left, stamped with the instant of the tick, so that the remaining
    time and the start time always describe the same moment.
   */
  function RestampedTickCopy(t: Timer, millisUntilFinished: Int64, now: Int64): Timer {
    TickedCopy(t, millisUntilFinished).(lastStartedTimestamp := Some(now))
  }

  /** Shifting a non-negative dividend by whole seconds shifts the truncated quotient by as many. */
  lemma DivShift(e: int, k: nat)
    requires 1000 * k <= e
    ensures Div(e - 1000 * k, 1000) == Div(e, 1000) - k
  {
    var q := Div(e, 1000);
    var q2 := Div(e - 1000 * k, 1000);
    var d := q - k - q2;
    assert -1000 < 1000 * d < 1000;
  }

  /** A tick that reports `r - k` whole seconds in milliseconds writes exactly `r - k`. */
  lemma TickWritesWholeSeconds(r: Int32, k: nat)
    requires k <= r
    ensures TickedCopy(DEFAULT_TIMER, (r - k) * 1000).remainingTimeSeconds == r - k
  {
    DivShift(r * 1000, r);
    DivShift(r * 1000, k);
    assert (r - k) * 1000 == r * 1000 - 1000 * k;
  }

  /**
    With the restamping tick, a record started at `t0` and last ticked `k`
    whole seconds later resumes at any later `now` with the time START wrote
    less the whole seconds since `t0`, floored at 0: the elapsed time is
    counted once, however many ticks were written.
   */
  lemma TickedResumesFromRemaining(t: Timer, t0: Int64, k: nat, now: Int64)
    requires Consistent(t)
    requires k <= StartedCopy(t, t0).remainingTimeSeconds
    requires t0 + 1000 * k <= now && now - t0 <= 0x8000_0000 * 1000
    ensures var s := StartedCopy(t, t0);
      var v := s.remainingTimeSeconds - Div(now - t0, 1000);
      ResumedFromRemaining(RestampedTickCopy(s, (s.remainingTimeSeconds - k) * 1000, t0 + 1000 * k), now)
        == if v < 0 then 0 else v
  {
    var s := StartedCopy(t, t0);
    var r := s.remainingTimeSeconds;
    var e := now - t0;
    TickWritesWholeSeconds(r, k);
    var ticked := RestampedTickCopy(s, (r - k) * 1000, t0 + 1000 * k);
    assert ticked.remainingTimeSeconds == r - k;
    assert ElapsedMillis(ticked, now) == e - 1000 * k;
    DivShift(e, k);
    var q := Div(e, 1000);
    assert 0 <= q <= 0x8000_0000 by {
      assert q * 1000 <= e;
    }
  }

  /**
    For a record started from its full duration, the resumption from the
    remaining time after restamping ticks is what the resumption as written
    gives after the ticks as written: the correction keeps the restart after
    the service was killed.
   */
  lemma TickedResumeAgreesFromFullDuration(t: Timer, t0: Int64, k: nat, now: Int64)
    requires Consistent(t) && StartedCopy(t, t0).remainingTimeSeconds == t.initialDurationSeconds
    requires k <= t.initialDurationSeconds
    requires t0 + 1000 * k <= now && now - t0 <= 0x8000_0000 * 1000
    ensures var s := StartedCopy(t, t0);
      ResumedRemaining(TickedCopy(s, (s.remainingTimeSeconds - k) * 1000), now)
      == ResumedFromRemaining(RestampedTickCopy(s, (s.remainingTimeSeconds - k) * 1000, t0 + 1000 * k), now)
  {
    TickedResumesFromRemaining(t, t0, k, now);
    var s := StartedCopy(t, t0);
    var e := now - t0;
    assert ElapsedMillis(TickedCopy(s, (s.remainingTimeSeconds - k) * 1000), now) == e;
    var q := Div(e, 1000);
    assert 0 <= q <= 0x8000_0000 by {
      assert q * 1000 <= e;
    }
  }

  /**
    Why the tick must restamp: a 300 s record started at 1000000 ms and
    ticked with 280000 ms left resumes at 1030000 ms with 270 s as written.
    Resuming from the remaining time with the tick as written counts the
    first 20 s twice and gives 250 s; with the restamping tick it gives 270 s.
   */
  lemma ResumeFromRemainingNeedsRestamp()
    ensures var s := StartedCopy(Timer(1, "bread", 300, 300, false, false, None, None, None), 1000000);
      && ResumedRemaining(TickedCopy(s, 280000), 1030000) == 270
      && ResumedFromRemaining(TickedCopy(s, 280000), 1030000) == 250
      && ResumedFromRemaining(RestampedTickCopy(s, 280000, 1020000), 1030000) == 270
  {
  }


  /**
    The `toInt()` keeps 32 bits: a one-minute record started 2^31 + 61
    seconds (about 68 years) before `now` resumes with 2^31 - 1 seconds to go
    instead of being completed.
   */
  lemma ResumedWrapsAfterLongAbsence()
    ensures var t := DEFAULT_TIMER.(initialDurationSeconds := 60, remainingTimeSeconds := 60,
                                    isRunning := true, lastStartedTimestamp := Some(0));
      ResumedRemaining(t, (0x8000_0000 + 61) * 1000) == 0x7fff_ffff
  {
    var t := DEFAULT_TIMER.(initialDurationSeconds := 60, remainingTimeSeconds := 60,
                            isRunning := true, lastStartedTimestamp := Some(0));
    var now: Int64 := (0x8000_0000 + 61) * 1000;
    assert ElapsedMillis(t, now) == now;
    assert Div(now, 1000) == 0x8000_0000 + 61;
    assert ToInt(-0x8000_0001) == 0x7fff_ffff;
  }

  // ---------------------------------------------------------------------------
  // The countdown map
  // ---------------------------------------------------------------------------

  /**
    `startCountdownForTimer`: any countdown of the id is cancelled and
    removed, and a new one is filed only when there is time left.
   */
  function AfterStartCountdown(m: map<Int64, Countdown>, t: Timer): (r: map<Int64, Countdown>)
    ensures forall id :: id != t.id ==> (id in r <==> id in m) && (id in r ==> r[id] == m[id])
    ensures t.id in r <==> t.remainingTimeSeconds > 0
    ensures t.id in r ==> r[t.id] == Countdown(t, t.remainingTimeSeconds * 1000)
  {
    var m' := m - {t.id};
    if t.remainingTimeSeconds * 1000 <= 0 then m' else m'[t.id := Countdown(t, t.remainingTimeSeconds * 1000)]
  }

  /** Starting a countdown keeps every countdown well formed. */
  lemma AfterStartCountdownWellFormed(m: map<Int64, Countdown>, t: Timer)
    requires CountdownsWellFormed(m)
    ensures CountdownsWellFormed(AfterStartCountdown(m, t))
  {
  }

  // ---------------------------------------------------------------------------
  // One reconciliation pass, as a function of its inputs
  // ---------------------------------------------------------------------------

  /** `loadedTimers.filter { it.isRunning }`. */
  function RunningTimers(loaded: seq<Timer>): (r: seq<Timer>)
    ensures forall t :: t in r <==> t in loaded && t.isRunning
    ensures |r| <= |loaded|
    ensures UniqueIds(loaded) ==> UniqueIds(r)
  {
    if loaded == [] then []
    else
      var rest := RunningTimers(loaded[1..]);
      if loaded[0].isRunning then
        assert UniqueIds(loaded) ==> forall t :: t in rest ==> t.id != loaded[0].id;
        [loaded[0]] + rest
      else rest
  }

  /** The filter keeps every running record as often as the list holds it, and no other. */
  lemma {:induction false} RunningTimersCount(loaded: seq<Timer>, t: Timer)
    ensures multiset(RunningTimers(loaded))[t] == if t.isRunning then multiset(loaded)[t] else 0
  {
    if loaded != [] {
      assert loaded == [loaded[0]] + loaded[1..];
      RunningTimersCount(loaded[1..], t);
    }
  }

  /**
    The filter keeps the order of the list: filtering a concatenation
    concatenates the filtered parts.
   */
  lemma {:induction false} RunningTimersAppend(a: seq<Timer>, b: seq<Timer>)
    ensures RunningTimers(a + b) == RunningTimers(a) + RunningTimers(b)
  {
    if a == [] {
      assert a + b == b;
    } else {
      assert (a + b)[0] == a[0] && (a + b)[1..] == a[1..] + b;
      RunningTimersAppend(a[1..], b);
    }
  }

  /** The ids of the running records. */
  function RunningIds(loaded: seq<Timer>): set<Int64> {
    set t | t in loaded && t.isRunning :: t.id
  }

  /** The ids of the records of a list. */
  function IdsOf(s: seq<Timer>): set<Int64> {
    set t | t in s :: t.id
  }

  /** Phase 1: the countdowns whose ids are still running. */
  function WithoutStale(m: map<Int64, Countdown>, running: set<Int64>): map<Int64, Countdown> {
    map id | id in m && id in running :: m[id]
  }

  /** The countdown phase 2 starts for a running record it resumes. */
  function ResumedCountdown(t: Timer, now: Int64): Countdown {
    var r := ResumedRemaining(t, now);
    Countdown(t.(remainingTimeSeconds := r), r * 1000)
  }

  /** The countdowns after a pass and the records it writes back, in order. */
  datatype Pass = Pass(countdowns: map<Int64, Countdown>, writes: seq<Timer>)

  /** Phase 2 for one running record. */
  function ResumeOne(p: Pass, t: Timer, now: Int64): Pass {
    if t.id in p.countdowns then p
    else
      var actual := ResumedRemaining(t, now);
      if actual > 0 then Pass(AfterStartCountdown(p.countdowns, t.(remainingTimeSeconds := actual)), p.writes)
      else Pass(p.countdowns, p.writes + [Completed(t)])
  }

  /** Phase 2 over the running records, in order. */
  function ResumeAll(m: map<Int64, Countdown>, running: seq<Timer>, now: Int64): Pass
    decreases |running|
  {
    if running == [] then Pass(m, [])
    else ResumeOne(ResumeAll(m, running[..|running| - 1], now), running[|running| - 1], now)
  }

  /** Phase 2 over one more record of `rs` is one more `ResumeOne`. */
  lemma ResumeAllSnoc(m: map<Int64, Countdown>, rs: seq<Timer>, i: int, now: Int64)
    requires 0 <= i < |rs|
    ensures ResumeAll(m, rs[..i + 1], now) == ResumeOne(ResumeAll(m, rs[..i], now), rs[i], now)
  {
    assert rs[..i + 1][..i] == rs[..i];
  }

  /** The whole pass over `loaded` at time `now`. */
  function Reconciled(m: map<Int64, Countdown>, loaded: seq<Timer>, now: Int64): Pass {
    ResumeAll(WithoutStale(m, RunningIds(loaded)), RunningTimers(loaded), now)
  }

  /**
    What a pass must produce, stated per id: only running ids keep a
    countdown; a running id that had one keeps it untouched; a running
    record without one gets one exactly when it has time left, started from
    the resumed time.
   */
  ghost predicate IsReconciliation(m: map<Int64, Countdown>, loaded: seq<Timer>, now: Int64, r: map<Int64, Countdown>) {
    && (forall id :: id in r ==> id in RunningIds(loaded))
    && (forall id :: id in m && id in RunningIds(loaded) ==> id in r && r[id] == m[id])
    && (forall t :: t in loaded && t.isRunning && t.id !in m ==>
          (t.id in r <==> ResumedRemaining(t, now) > 0)
          && (t.id in r ==> r[t.id] == ResumedCountdown(t, now)))
  }

  /** What phase 2 over `rs`, starting from the countdowns `m`, has done once it produced `p`. */
  ghost predicate ResumedFrom(m: map<Int64, Countdown>, rs: seq<Timer>, now: Int64, p: Pass) {
    && (forall id :: id in p.countdowns ==> id in m || id in IdsOf(rs))
    && (forall id :: id in m ==> id in p.countdowns && p.countdowns[id] == m[id])
    && (forall t :: t in rs && t.id !in m ==>
          (t.id in p.countdowns <==> ResumedRemaining(t, now) > 0)
          && (t.id in p.countdowns ==> p.countdowns[t.id] == ResumedCountdown(t, now)))
    && p.writes == Completions(m, rs, now)
  }

  /**
    The completed copies of the records of `rs`, in order, that have no
    countdown in `m` and no time left at `now`.
   */
  function Completions(m: map<Int64, Countdown>, rs: seq<Timer>, now: Int64): seq<Timer>
    decreases |rs|
  {
    if rs == [] then []
    else
      var t := rs[|rs| - 1];
      Completions(m, rs[..|rs| - 1], now) + if t.id !in m && ResumedRemaining(t, now) == 0 then [Completed(t)] else []
  }

  /** `Completions` holds the completion of every expired record of `rs` and nothing else. */
  lemma {:induction false} CompletionsSpec(m: map<Int64, Countdown>, rs: seq<Timer>, now: Int64)
    ensures forall t :: t in rs && t.id !in m && ResumedRemaining(t, now) == 0 ==> Completed(t) in Completions(m, rs, now)
    ensures forall w :: w in Completions(m, rs, now) ==>
      exists t :: t in rs && t.id !in m && ResumedRemaining(t, now) == 0 && w == Completed(t)
    decreases |rs|
  {
    if rs != [] {
      var n := |rs| - 1;
      CompletionsSpec(m, rs[..n], now);
      assert rs == rs[..n] + [rs[n]];
      forall w | w in Completions(m, rs, now)
        ensures exists t :: t in rs && t.id !in m && ResumedRemaining(t, now) == 0 && w == Completed(t)
      {
        if w in Completions(m, rs[..n], now) {
          var t :| t in rs[..n] && t.id !in m && ResumedRemaining(t, now) == 0 && w == Completed(t);
          assert t in rs;
        } else {
          assert w == Completed(rs[n]);
        }
      }
    }
  }

  /** Phase 2 over one more record, whose id is new, keeps `ResumedFrom`. */
  lemma ResumeStep(m: map<Int64, Countdown>, rs: seq<Timer>, t0: Timer, now: Int64, p: Pass)
    requires ResumedFrom(m, rs, now, p)
    requires t0.id !in IdsOf(rs)
    ensures ResumedFrom(m, rs + [t0], now, ResumeOne(p, t0, now))
  {
    if t0.id in p.countdowns {
      ResumeStepSkip(m, rs, t0, now, p);
    } else if ResumedRemaining(t0, now) > 0 {
      ResumeStepStart(m, rs, t0, now, p);
    } else {
      ResumeStepComplete(m, rs, t0, now, p);
    }
  }

  /** The case of `ResumeStep` where the record already has a countdown. */
  lemma ResumeStepSkip(m: map<Int64, Countdown>, rs: seq<Timer>, t0: Timer, now: Int64, p: Pass)
    requires ResumedFrom(m, rs, now, p)
    requires t0.id !in IdsOf(rs) && t0.id in p.countdowns
    ensures ResumedFrom(m, rs + [t0], now, ResumeOne(p, t0, now))
  {
    var rs' := rs + [t0];
    assert forall t :: t in rs' <==> t in rs || t == t0;
    assert IdsOf(rs') == IdsOf(rs) + {t0.id};
    assert rs'[..|rs'| - 1] == rs;
    assert t0.id in m;
    assert Completions(m, rs', now) == Completions(m, rs, now);
    assert forall t :: t in rs' && t.id !in m ==> t in rs;
  }

  /** The case of `ResumeStep` that writes the record back completed. */
  lemma ResumeStepComplete(m: map<Int64, Countdown>, rs: seq<Timer>, t0: Timer, now: Int64, p: Pass)
    requires ResumedFrom(m, rs, now, p)
    requires t0.id !in IdsOf(rs) && t0.id !in p.countdowns && ResumedRemaining(t0, now) == 0
    ensures ResumedFrom(m, rs + [t0], now, ResumeOne(p, t0, now))
  {
    var rs' := rs + [t0];
    assert forall t :: t in rs' <==> t in rs || t == t0;
    assert IdsOf(rs') == IdsOf(rs) + {t0.id};
    assert rs'[..|rs'| - 1] == rs;
    assert t0.id !in m;
    assert ResumeOne(p, t0, now) == Pass(p.countdowns, p.writes + [Completed(t0)]);
    assert Completions(m, rs', now) == Completions(m, rs, now) + [Completed(t0)];
    forall t | t in rs' && t.id !in m
      ensures (t.id in p.countdowns <==> ResumedRemaining(t, now) > 0)
      ensures t.id in p.countdowns ==> p.countdowns[t.id] == ResumedCountdown(t, now)
    {
      if t != t0 {
        assert t in rs;
      }
    }
  }

  /** The case of `ResumeStep` that starts a countdown. */
  lemma ResumeStepStart(m: map<Int64, Countdown>, rs: seq<Timer>, t0: Timer, now: Int64, p: Pass)
    requires ResumedFrom(m, rs, now, p)
    requires t0.id !in IdsOf(rs) && t0.id !in p.countdowns && ResumedRemaining(t0, now) > 0
    ensures ResumedFrom(m, rs + [t0], now, ResumeOne(p, t0, now))
  {
    var rs' := rs + [t0];
    assert rs'[..|rs'| - 1] == rs;
    assert t0.id !in m;
    var c := p.countdowns[t0.id := ResumedCountdown(t0, now)];
    ResumeOneStarts(p, t0, now);
    assert p.writes == Completions(m, rs', now);
    StartKeys(m, rs, t0, p.countdowns, ResumedCountdown(t0, now));
    StartResumed(m, rs, t0, now, p.countdowns);
  }

  /** Resuming a record with no countdown and time left files its resumed countdown under its id. */
  lemma ResumeOneStarts(p: Pass, t: Timer, now: Int64)
    requires t.id !in p.countdowns && ResumedRemaining(t, now) > 0
    ensures ResumeOne(p, t, now) == Pass(p.countdowns[t.id := ResumedCountdown(t, now)], p.writes)
  {
    var r := ResumedRemaining(t, now);
    var c := AfterStartCountdown(p.countdowns, t.(remainingTimeSeconds := r));
    assert c == p.countdowns[t.id := ResumedCountdown(t, now)];
  }

  /** Filing a countdown under a new id keeps the key bound and the old countdowns. */
  lemma StartKeys(m: map<Int64, Countdown>, rs: seq<Timer>, t0: Timer, pc: map<Int64, Countdown>, c0: Countdown)
    requires forall id :: id in pc ==> id in m || id in IdsOf(rs)
    requires forall id :: id in m ==> id in pc && pc[id] == m[id]
    requires t0.id !in pc
    ensures IdsOf(rs + [t0]) == IdsOf(rs) + {t0.id}
    ensures forall id :: id in pc[t0.id := c0] ==> id in m || id in IdsOf(rs + [t0])
    ensures forall id :: id in m ==> id in pc[t0.id := c0] && pc[t0.id := c0][id] == m[id]
  {
    var rs' := rs + [t0];
    assert forall t :: t in rs' <==> t in rs || t == t0;
  }

  /** Filing the resumed countdown of a record with a new id: every record is then resumed as required. */
  lemma StartResumed(m: map<Int64, Countdown>, rs: seq<Timer>, t0: Timer, now: Int64, pc: map<Int64, Countdown>)
    requires forall t :: t in rs && t.id !in m ==>
      (t.id in pc <==> ResumedRemaining(t, now) > 0)
      && (t.id in pc ==> pc[t.id] == ResumedCountdown(t, now))
    requires t0.id !in IdsOf(rs) && ResumedRemaining(t0, now) > 0
    ensures var c := pc[t0.id := ResumedCountdown(t0, now)];
      forall t :: t in rs + [t0] && t.id !in m ==>
        (t.id in c <==> ResumedRemaining(t, now) > 0)
        && (t.id in c ==> c[t.id] == ResumedCountdown(t, now))
  {
    var rs' := rs + [t0];
    var c := pc[t0.id := ResumedCountdown(t0, now)];
    forall t | t in rs' && t.id !in m
      ensures (t.id in c <==> ResumedRemaining(t, now) > 0)
      ensures t.id in c ==> c[t.id] == ResumedCountdown(t, now)
    {
      if t != t0 {
        assert t in rs && t.id in IdsOf(rs);
      }
    }
  }

  /** Phase 2 over a list of records with distinct ids, described record by record. */
  lemma {:induction false} ResumeAllSpec(m: map<Int64, Countdown>, rs: seq<Timer>, now: Int64)
    requires UniqueIds(rs)
    ensures ResumedFrom(m, rs, now, ResumeAll(m, rs, now))
    decreases |rs|
  {
    if rs != [] {
      var n := |rs| - 1;
      UniqueLast(rs);
      ResumeAllSpec(m, rs[..n], now);
      ResumeStep(m, rs[..n], rs[n], now, ResumeAll(m, rs[..n], now));
      assert rs[..n] + [rs[n]] == rs;
    }
  }

  /** Without its last record a list with distinct ids keeps them distinct, and the last id is new. */
  lemma UniqueLast(rs: seq<Timer>)
    requires UniqueIds(rs) && rs != []
    ensures UniqueIds(rs[..|rs| - 1]) && rs[|rs| - 1].id !in IdsOf(rs[..|rs| - 1])
  {
    var n := |rs| - 1;
    forall t | t in rs[..n] ensures t.id != rs[n].id {
      var i :| 0 <= i < n && rs[..n][i] == t;
      assert rs[i] == t;
    }
  }

  /** A pass over records with distinct ids does what `IsReconciliation` demands. */
  lemma ReconciledSpec(m: map<Int64, Countdown>, loaded: seq<Timer>, now: Int64)
    requires UniqueIds(loaded)
    ensures IsReconciliation(m, loaded, now, Reconciled(m, loaded, now).countdowns)
  {
    var ids := RunningIds(loaded);
    var m1 := WithoutStale(m, ids);
    var rs := RunningTimers(loaded);
    ResumeAllSpec(m1, rs, now);
    assert IdsOf(rs) == ids;
  }

  /**
    The records a pass writes back are exactly the completions of the running
    records that had no countdown and no time left.
   */
  lemma ReconciledWrites(m: map<Int64, Countdown>, loaded: seq<Timer>, now: Int64)
    requires UniqueIds(loaded)
    ensures var w := Reconciled(m, loaded, now).writes;
      && (forall t :: t in loaded && t.isRunning && t.id !in m && ResumedRemaining(t, now) == 0 ==> Completed(t) in w)
      && (forall x :: x in w ==>
            exists t :: t in loaded && t.isRunning && t.id !in m && ResumedRemaining(t, now) == 0 && x == Completed(t))
  {
    var ids := RunningIds(loaded);
    var m1 := WithoutStale(m, ids);
    var rs := RunningTimers(loaded);
    ResumeAllSpec(m1, rs, now);
    CompletionsSpec(m1, rs, now);
    forall t | t in loaded && t.isRunning ensures t.id in ids {
    }
  }

  /** A pass keeps the countdowns well formed. */
  lemma ReconciledWellFormed(m: map<Int64, Countdown>, loaded: seq<Timer>, now: Int64)
    requires UniqueIds(loaded) && CountdownsWellFormed(m)
    ensures CountdownsWellFormed(Reconciled(m, loaded, now).countdowns)
  {
    var r := Reconciled(m, loaded, now).countdowns;
    ReconciledSpec(m, loaded, now);
    forall id | id in r
      ensures r[id].timer.id == id && r[id].millisInFuture == r[id].timer.remainingTimeSeconds * 1000
      ensures r[id].millisInFuture > 0
    {
      if id !in m {
        var t :| t in loaded && t.isRunning && t.id == id;
      }
    }
  }

  /** A second pass over the same records at the same instant changes no countdown. */
  lemma ReconcileStable(m: map<Int64, Countdown>, loaded: seq<Timer>, now: Int64)
    requires UniqueIds(loaded)
    ensures var c := Reconciled(m, loaded, now).countdowns;
      Reconciled(c, loaded, now).countdowns == c
  {
    var c1 := Reconciled(m, loaded, now).countdowns;
    ReconciledSpec(m, loaded, now);
    ReconciledSpec(c1, loaded, now);
    ReconciliationStable(m, loaded, now, c1, Reconciled(c1, loaded, now).countdowns);
  }

  /** Any reconciliation of a reconciliation, at the same instant, is the identity. */
  lemma ReconciliationStable(m: map<Int64, Countdown>, loaded: seq<Timer>, now: Int64, c1: map<Int64, Countdown>, c2: map<Int64, Countdown>)
    requires IsReconciliation(m, loaded, now, c1) && IsReconciliation(c1, loaded, now, c2)
    ensures c2 == c1
  {
    forall id | id in c2 ensures id in c1 {
      var t :| t in loaded && t.isRunning && t.id == id;
    }
  }

  // ---------------------------------------------------------------------------
  // The service
  // ---------------------------------------------------------------------------

  class Service {
    /** The running countdowns, by record id. */
    var activeCountDownTimers: map<Int64, Countdown>
    /** The `timers` table the service reads and writes. */
    const timerDao: TimerTable

    ghost predicate Valid()
      reads this, timerDao
    {
      timerDao.Valid() && CountdownsWellFormed(activeCountDownTimers)
    }

    /** `onCreate`: no countdowns yet. */
    constructor (dao: TimerTable)
      requires dao.Valid()
      ensures Valid() && timerDao == dao && activeCountDownTimers == map[]
    {
      timerDao := dao;
      activeCountDownTimers := map[];
    }

    /** `startCountdownForTimer`. */
    method StartCountdownForTimer(timer: Timer)
      requires Valid()
      modifies this
      ensures Valid()
      ensures activeCountDownTimers == AfterStartCountdown(old(activeCountDownTimers), timer)
    {
      activeCountDownTimers := activeCountDownTimers - {timer.id};
      var actualRemainingMillis := timer.remainingTimeSeconds * 1000;
      if actualRemainingMillis <= 0 {
        return;
      }
      activeCountDownTimers := activeCountDownTimers[timer.id := Countdown(timer, actualRemainingMillis)];
    }

    /** `stopCountdownForTimer`: cancels and removes the id's countdown, and no other. */
    method StopCountdownForTimer(timerId: Int64)
      requires Valid()
      modifies this
      ensures Valid()
      ensures activeCountDownTimers == old(activeCountDownTimers) - {timerId}
    {
      activeCountDownTimers := activeCountDownTimers - {timerId};
    }

    /** `stopAllActiveTimers`: cancels every countdown and empties the map. */
    method StopAllActiveTimers()
      requires Valid()
      modifies this
      ensures Valid()
      ensures activeCountDownTimers == map[]
    {
      activeCountDownTimers := map[];
    }

    /**
      One pass of the collector in `onCreate` over `loadedTimers` at time
      `now`: phase 1 cancels the countdowns whose ids are no longer running,
      phase 2 resumes or completes each running record without one.
     */
    method Reconcile(loadedTimers: seq<Timer>, now: Int64)
      requires Valid()
      modifies this, timerDao
      ensures Valid()
      ensures activeCountDownTimers == Reconciled(old(activeCountDownTimers), loadedTimers, now).countdowns
      ensures timerDao.rows == UpdatedAll(old(timerDao.rows), Reconciled(old(activeCountDownTimers), loadedTimers, now).writes)
      ensures timerDao.sequence == old(timerDao.sequence)
    {
      var runningTimersFromDb := RunningTimers(loadedTimers);
      var runningTimerIdsFromDb := RunningIds(loadedTimers);
      CancelStaleCountdowns(runningTimerIdsFromDb);
      ResumeMissingCountdowns(runningTimersFromDb, now);
    }

    /** Phase 1 of `Reconcile`: cancels and removes every countdown whose id is not running. */
    method CancelStaleCountdowns(runningTimerIdsFromDb: set<Int64>)
      requires Valid()
      modifies this
      ensures Valid()
      ensures activeCountDownTimers == WithoutStale(old(activeCountDownTimers), runningTimerIdsFromDb)
    {
      var keys := activeCountDownTimers.Keys;
      while keys != {}
        invariant Valid()
        invariant activeCountDownTimers ==
          map id | id in old(activeCountDownTimers) && (id in keys || id in runningTimerIdsFromDb) :: old(activeCountDownTimers)[id]
        decreases keys
      {
        var activeId :| activeId in keys;
        if activeId !in runningTimerIdsFromDb {
          StopCountdownForTimer(activeId);
        }
        keys := keys - {activeId};
      }
    }

    /**
      Phase 2 of `Reconcile`: each running record without a countdown is
      resumed from the time left at `now`, or written back completed when
      none is left.
     */
    method ResumeMissingCountdowns(runningTimersFromDb: seq<Timer>, now: Int64)
      requires Valid()
      modifies this, timerDao
      ensures Valid()
      ensures activeCountDownTimers == ResumeAll(old(activeCountDownTimers), runningTimersFromDb, now).countdowns
      ensures timerDao.rows == UpdatedAll(old(timerDao.rows), ResumeAll(old(activeCountDownTimers), runningTimersFromDb, now).writes)
      ensures timerDao.sequence == old(timerDao.sequence)
    {
      var i := 0;
      while i < |runningTimersFromDb|
        invariant 0 <= i <= |runningTimersFromDb|
        invariant Valid()
        invariant activeCountDownTimers == ResumeAll(old(activeCountDownTimers), runningTimersFromDb[..i], now).countdowns
        invariant timerDao.rows == UpdatedAll(old(timerDao.rows), ResumeAll(old(activeCountDownTimers), runningTimersFromDb[..i], now).writes)
        invariant timerDao.sequence == old(timerDao.sequence)
      {
        ghost var before := ResumeAll(old(activeCountDownTimers), runningTimersFromDb[..i], now);
        ResumeAllSnoc(old(activeCountDownTimers), runningTimersFromDb, i, now);
        ResumeIfMissing(runningTimersFromDb[i], now, old(timerDao.rows), before.writes);
        i := i + 1;
      }
      assert runningTimersFromDb[..i] == runningTimersFromDb;
    }

    /**
      The body of phase 2 for one running record: with no countdown yet it is
      resumed when time is left and written back completed otherwise.
     */
    method ResumeIfMissing(timerFromDb: Timer, now: Int64, ghost rows0: map<Int64, Timer>, ghost writes: seq<Timer>)
      requires Valid() && timerDao.rows == UpdatedAll(rows0, writes)
      modifies this, timerDao
      ensures Valid()
      ensures var p := ResumeOne(Pass(old(activeCountDownTimers), writes), timerFromDb, now);
        activeCountDownTimers == p.countdowns && timerDao.rows == UpdatedAll(rows0, p.writes)
      ensures timerDao.sequence == old(timerDao.sequence)
    {
      if timerFromDb.id !in activeCountDownTimers {
        var actualRemainingSeconds := ResumedRemaining(timerFromDb, now);
        if actualRemainingSeconds > 0 {
          var resumedTimer := timerFromDb.(remainingTimeSeconds := actualRemainingSeconds);
          StartCountdownForTimer(resumedTimer);
        } else {
          var completedTimer := Completed(timerFromDb);
          timerDao.UpdateTimer(completedTimer);
          UpdatedAllSnoc(rows0, writes, completedTimer);
        }
      }
    }

    /**
      A countdown's `onTick`: the whole seconds left are written back, as a
      copy of the countdown's record, only when they differ from the
      remaining time the countdown was started with. The map is untouched.
     */
    method OnTick(countdown: Countdown, millisUntilFinished: Int64)
      requires Valid()
      modifies timerDao
      ensures Valid()
      ensures var currentRemaining := ToInt(Div(millisUntilFinished, 1000));
        timerDao.rows ==
          if currentRemaining != countdown.timer.remainingTimeSeconds
          then Updated(old(timerDao.rows), TickedCopy(countdown.timer, millisUntilFinished))
          else old(timerDao.rows)
      ensures timerDao.sequence == old(timerDao.sequence)
    {
      var currentRemaining := ToInt(Div(millisUntilFinished, 1000));
      if currentRemaining != countdown.timer.remainingTimeSeconds {
        timerDao.UpdateTimer(countdown.timer.(remainingTimeSeconds := currentRemaining));
      }
    }

    /**
      A countdown's `onFinish`: its record is written back completed and its
      id leaves the map. The result says whether no stored record is left
      running, in which case the service stops itself.
     */
    method OnFinish(countdown: Countdown) returns (stopService: bool)
      requires Valid()
      modifies this, timerDao
      ensures Valid()
      ensures timerDao.rows == Updated(old(timerDao.rows), Completed(countdown.timer))
      ensures timerDao.sequence == old(timerDao.sequence)
      ensures activeCountDownTimers == old(activeCountDownTimers) - {countdown.timer.id}
      ensures stopService <==> forall id :: id in timerDao.rows ==> !timerDao.rows[id].isRunning
    {
      timerDao.UpdateTimer(Completed(countdown.timer));
      activeCountDownTimers := activeCountDownTimers - {countdown.timer.id};
      var all := timerDao.GetAllTimers();
      var anyRunning := false;
      var i := 0;
      while i < |all|
        invariant 0 <= i <= |all|
        invariant anyRunning <==> exists j :: 0 <= j < i && all[j].isRunning
      {
        if all[i].isRunning {
          anyRunning := true;
        }
        i := i + 1;
      }
      stopService := !anyRunning;
      forall id | id in timerDao.rows && timerDao.rows[id].isRunning ensures anyRunning {
        assert timerDao.rows[id] in all;
      }
    }

    /** The START command: the stored record with that id, if any, is rewritten as started at `now`. */
    method StartTimerCommand(timerId: Int64, now: Int64)
      requires Valid()
      modifies timerDao
      ensures Valid()
      ensures timerDao.rows ==
        if timerId != -1 && timerId in old(timerDao.rows)
        then old(timerDao.rows)[timerId := StartedCopy(old(timerDao.rows)[timerId], now)]
        else old(timerDao.rows)
      ensures timerDao.sequence == old(timerDao.sequence)
    {
      if timerId != -1 {
        var all := timerDao.GetAllTimers();
        QueryResultFind(timerDao.rows, all, timerId);
        var timer := FindById(all, timerId);
        if timer.Some? {
          timerDao.UpdateTimer(StartedCopy(timer.value, now));
        }
      }
    }

    /** The STOP command: the id's countdown is removed and the stored record is rewritten as stopped. */
    method StopTimerCommand(timerId: Int64)
      requires Valid()
      modifies this, timerDao
      ensures Valid()
      ensures timerId != -1 && timerId in old(timerDao.rows) ==>
        && activeCountDownTimers == old(activeCountDownTimers) - {timerId}
        && timerDao.rows == old(timerDao.rows)[timerId := StoppedCopy(old(timerDao.rows)[timerId])]
      ensures !(timerId != -1 && timerId in old(timerDao.rows)) ==>
        activeCountDownTimers == old(activeCountDownTimers) && timerDao.rows == old(timerDao.rows)
      ensures timerDao.sequence == old(timerDao.sequence)
    {
      if timerId != -1 {
        var all := timerDao.GetAllTimers();
        QueryResultFind(timerDao.rows, all, timerId);
        var timer := FindById(all, timerId);
        if timer.Some? {
          StopCountdownForTimer(timer.value.id);
          timerDao.UpdateTimer(StoppedCopy(timer.value));
        }
      }
    }

    /** The RESET command: the id's countdown is removed and the stored record is rewritten as reset. */
    method ResetTimerCommand(timerId: Int64)
      requires Valid()
      modifies this, timerDao
      ensures Valid()
      ensures timerId != -1 && timerId in old(timerDao.rows) ==>
        && activeCountDownTimers == old(activeCountDownTimers) - {timerId}
        && timerDao.rows == old(timerDao.rows)[timerId := ResetCopy(old(timerDao.rows)[timerId])]
      ensures !(timerId != -1 && timerId in old(timerDao.rows)) ==>
        activeCountDownTimers == old(activeCountDownTimers) && timerDao.rows == old(timerDao.rows)
      ensures timerDao.sequence == old(timerDao.sequence)
    {
      if timerId != -1 {
        var all := timerDao.GetAllTimers();
        QueryResultFind(timerDao.rows, all, timerId);
        var timer := FindById(all, timerId);
        if timer.Some? {
          StopCountdownForTimer(timer.value.id);
          timerDao.UpdateTimer(ResetCopy(timer.value));
        }
      }
    }

    /**
      `onStartCommand`: dispatch on the intent's action (`None` for a null
      intent or action); `timerId` is the id extra, -1 when absent.
     */
    method OnStartCommand(action: Option<string>, timerId: Int64, now: Int64) returns (result: int)
      requires Valid()
      modifies this, timerDao
      ensures Valid()
      ensures result == START_STICKY
      ensures action == Some(ACTION_STOP_TIMER_SERVICE) ==>
        activeCountDownTimers == map[] && timerDao.rows == old(timerDao.rows)
      ensures action == Some(ACTION_START_TIMER) ==>
        activeCountDownTimers == old(activeCountDownTimers)
        && timerDao.rows == if timerId != -1 && timerId in old(timerDao.rows)
           then old(timerDao.rows)[timerId := StartedCopy(old(timerDao.rows)[timerId], now)]
           else old(timerDao.rows)
      ensures action == Some(ACTION_STOP_TIMER) && timerId != -1 && timerId in old(timerDao.rows) ==>
        activeCountDownTimers == old(activeCountDownTimers) - {timerId}
        && timerDao.rows == old(timerDao.rows)[timerId := StoppedCopy(old(timerDao.rows)[timerId])]
      ensures action == Some(ACTION_RESET_TIMER) && timerId != -1 && timerId in old(timerDao.rows) ==>
        activeCountDownTimers == old(activeCountDownTimers) - {timerId}
        && timerDao.rows == old(timerDao.rows)[timerId := ResetCopy(old(timerDao.rows)[timerId])]
      ensures action in {Some(ACTION_STOP_TIMER), Some(ACTION_RESET_TIMER)} && (timerId == -1 || timerId !in old(timerDao.rows)) ==>
        activeCountDownTimers == old(activeCountDownTimers) && timerDao.rows == old(timerDao.rows)
      ensures action !in {Some(ACTION_STOP_TIMER_SERVICE), Some(ACTION_START_TIMER), Some(ACTION_STOP_TIMER), Some(ACTION_RESET_TIMER)} ==>
        activeCountDownTimers == old(activeCountDownTimers) && timerDao.rows == old(timerDao.rows)
      ensures timerDao.sequence == old(timerDao.sequence)
    {
      if action == Some(ACTION_STOP_TIMER_SERVICE) {
        StopAllActiveTimers();
      } else if action == Some(ACTION_START_TIMER) {
        StartTimerCommand(timerId, now);
      } else if action == Some(ACTION_STOP_TIMER) {
        StopTimerCommand(timerId);
      } else if action == Some(ACTION_RESET_TIMER) {
        ResetTimerCommand(timerId);
      }
      result := START_STICKY;
    }
  }
}
