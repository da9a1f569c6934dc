/**
  The adapter of TimerAdaptor.kt, the one MainActivity constructs: it shows
  the activity's `timers` list, one card per record, and turns the card's
  buttons into the start, stop and reset callbacks with the record's id.
  A bound card is modelled as a value of what the views show.
 */
module TimerAdaptor {
  import opened KotlinStd
  import opened TimerRecord

  /** The countdown text of a completed record. */
  const TIMES_UP: string := "TIME'S UP!"

  /** The two colours of the countdown text (`R.color.red_700`, `R.color.blue_600`). */
  datatype TextColour = Red700 | Blue600

  /** What one bound card shows; the three buttons call back with `clickId`. */
  datatype Card = Card(
    name: string,
    countdownText: string,
    countdownColour: TextColour,
    startEnabled: bool,
    stopEnabled: bool,
    resetEnabled: bool,
    clickId: Int64)

  /**
    A clock text: decimal minutes, ':', and exactly two decimal digits of
    seconds below 60.
   */
  predicate IsClockText(s: string) {
    && |s| >= 5 && s[|s| - 3] == ':'
    && AllDigits(s[..|s| - 3]) && AllDigits(s[|s| - 2..])
    && DigitsValue(s[|s| - 2..]) < 60
  }

  /** The number of seconds a clock text reads. */
  function ClockValue(s: string): int
    requires IsClockText(s)
  {
    DigitsValue(s[..|s| - 3]) * 60 + DigitsValue(s[|s| - 2..])
  }

  /**
    `formatTime`: whole minutes (`toMinutes`, truncating) and the seconds
    left over, each `%02d`, joined by ':'. A time that is not negative comes
    out as a clock text that reads back as that time; below 100 minutes it
    is five characters long.
   */
  function FormatTime(totalSeconds: Int32): (s: string)
    ensures |s| >= 5
    ensures totalSeconds >= 0 ==> IsClockText(s) && ClockValue(s) == totalSeconds
    ensures 0 <= totalSeconds < 6000 ==> |s| == 5
  {
    var minutes := Div(totalSeconds, 60);
    var seconds := totalSeconds - ToInt(minutes * 60);
    MinutesAndSeconds(totalSeconds);
    if totalSeconds >= 0 then
      ClockParts(minutes, seconds);
      Format02d(minutes) + ":" + Format02d(seconds)
    else
      Format02d(minutes) + ":" + Format02d(seconds)
  }

  /** The minutes and seconds `formatTime` computes: no wrap-around, and for a time that is not negative a division by 60. */
  lemma MinutesAndSeconds(totalSeconds: Int32)
    ensures var minutes := Div(totalSeconds, 60);
      var seconds := totalSeconds - ToInt(minutes * 60);
      && seconds == totalSeconds - minutes * 60
      && (totalSeconds >= 0 ==> minutes >= 0 && 0 <= seconds < 60)
      && (0 <= totalSeconds < 6000 ==> minutes < 100)
  {
    var minutes := Div(totalSeconds, 60);
    assert INT_MIN <= minutes * 60 <= INT_MAX;
  }

  /** Where the parts of `"%02d:%02d"` lie when the seconds are below 60. */
  lemma ClockParts(minutes: int, seconds: int)
    requires minutes >= 0 && 0 <= seconds < 60
    ensures var s := Format02d(minutes) + ":" + Format02d(seconds);
      && s[|s| - 3] == ':' && s[..|s| - 3] == Format02d(minutes) && s[|s| - 2..] == Format02d(seconds)
      && (minutes < 100 ==> |s| == 5)
  {
    var s := Format02d(minutes) + ":" + Format02d(seconds);
    assert |Format02d(seconds)| == 2;
  }

  /** Distinct times that are not negative are shown as distinct texts. */
  lemma FormatTimeInjective(a: Int32, b: Int32)
    requires a >= 0 && b >= 0 && FormatTime(a) == FormatTime(b)
    ensures a == b
  {
    assert ClockValue(FormatTime(a)) == a;
  }

  /**
    The completed text can never be mistaken for a formatted time: a time
    starts with a digit or a minus sign.
   */
  lemma TimesUpIsNotATime(totalSeconds: Int32)
    ensures FormatTime(totalSeconds) != TIMES_UP
  {
    var minutes := Div(totalSeconds, 60);
    var seconds := totalSeconds - ToInt(minutes * 60);
    var s := FormatTime(totalSeconds);
    assert s == Format02d(minutes) + ":" + Format02d(seconds);
    assert s[0] == Format02d(minutes)[0];
    assert TIMES_UP[0] == 'T';
  }

  /** `getItemCount`. */
  function GetItemCount(timers: seq<Timer>): int {
    |timers|
  }

  /** `onBindViewHolder(holder, position)`: the card of `timers[position]`. */
  function OnBindViewHolder(timers: seq<Timer>, position: int): Card
    requires 0 <= position < |timers|
  {
    var timer := timers[position];
    var text := if timer.isCompleted then TIMES_UP else FormatTime(timer.remainingTimeSeconds);
    var colour := if timer.isCompleted then Red700 else Blue600;
    Card(timer.name, text, colour, !timer.isRunning && !timer.isCompleted, timer.isRunning, true, timer.id)
  }

  /**
    Every counted position binds, and binds the record at that position: its
    name, and buttons that call back with its id.
   */
  lemma BindCoversEveryItem(timers: seq<Timer>)
    ensures forall p :: 0 <= p < GetItemCount(timers) ==>
      OnBindViewHolder(timers, p).name == timers[p].name && OnBindViewHolder(timers, p).clickId == timers[p].id
  {
  }

  /**
    The buttons: Start only for a record that is neither running nor
    completed, Stop only for a running one, Reset always. Start and Stop are
    never both enabled, and for a consistent record that is not completed
    exactly one of them is.
   */
  lemma CardButtons(timers: seq<Timer>, position: int)
    requires 0 <= position < |timers|
    ensures var c := OnBindViewHolder(timers, position); var t := timers[position];
      && (c.startEnabled <==> !t.isRunning && !t.isCompleted)
      && (c.stopEnabled <==> t.isRunning)
      && c.resetEnabled
      && !(c.startEnabled && c.stopEnabled)
      && (Consistent(t) && !t.isCompleted ==> c.startEnabled != c.stopEnabled)
  {
  }

  /**
    The countdown text: "TIME'S UP!" in red exactly for a completed record,
    otherwise the formatted remaining time in blue; the text alone tells
    the two cases apart.
   */
  lemma CardCountdownText(timers: seq<Timer>, position: int)
    requires 0 <= position < |timers|
    ensures var c := OnBindViewHolder(timers, position); var t := timers[position];
      && (c.countdownText == TIMES_UP <==> t.isCompleted)
      && (c.countdownColour == Red700 <==> t.isCompleted)
      && (!t.isCompleted ==> c.countdownText == FormatTime(t.remainingTimeSeconds))
  {
    TimesUpIsNotATime(timers[position].remainingTimeSeconds);
  }
}
