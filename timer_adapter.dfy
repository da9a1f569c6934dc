/**
  The list adapter of TimerAdapter.kt: cards bound from the adapter's
  current list, the temperature shown in the unit chosen in the settings,
  and DiffUtil callbacks whose change payload lets a card be redrawn by
  updating only its countdown text. Its `formatTime` is the same code as
  TimerAdaptor.kt's and is modelled once, as `TimerAdaptor.FormatTime`.
 */
module TimerAdapter {
  import opened KotlinStd
  import opened TimerRecord
  import TimerAdaptor

  const FAHRENHEIT: string := "Fahrenheit"
  const GAS_MARK: string := "GasMark"

  // ---------------------------------------------------------------------------
  // Temperatures
  // ---------------------------------------------------------------------------

  /** `convertTemperature`: the temperature in the target unit and that unit's symbol. */
  function ConvertTemperature(tempCelsius: real, targetUnit: string): (real, string) {
    if targetUnit == FAHRENHEIT then (tempCelsius * 9.0 / 5.0 + 32.0, "F")
    else if targetUnit == GAS_MARK then (ConvertCelsiusToGasMark(tempCelsius), "GM")
    else (tempCelsius, "C")
  }

  /**
    The symbol names the unit: "F" exactly for "Fahrenheit", "GM" exactly
    for "GasMark", and "C" with the temperature unchanged for any other
    unit. Fahrenheit is converted back exactly and keeps the order of
    temperatures, with water freezing at 32 and boiling at 212.
   */
  lemma ConvertTemperatureSpec(tempCelsius: real, targetUnit: string)
    ensures var (t, symbol) := ConvertTemperature(tempCelsius, targetUnit);
      && (symbol == "F" <==> targetUnit == FAHRENHEIT)
      && (symbol == "GM" <==> targetUnit == GAS_MARK)
      && (symbol == "C" <==> targetUnit != FAHRENHEIT && targetUnit != GAS_MARK)
      && (symbol == "C" ==> t == tempCelsius)
      && (symbol == "F" ==> (t - 32.0) * 5.0 / 9.0 == tempCelsius)
      && (symbol == "GM" ==> t == ConvertCelsiusToGasMark(tempCelsius))
  {
  }

  /** Fahrenheit keeps the order of temperatures and maps the fixed points of water where they belong. */
  lemma FahrenheitOrder(a: real, b: real)
    ensures a < b ==> ConvertTemperature(a, FAHRENHEIT).0 < ConvertTemperature(b, FAHRENHEIT).0
    ensures ConvertTemperature(0.0, FAHRENHEIT).0 == 32.0 && ConvertTemperature(100.0, FAHRENHEIT).0 == 212.0
  {
  }

  /** The lower ends of gas marks 1 to 10, in degrees Celsius. */
  const GAS_MARK_THRESHOLDS: seq<real> := [135.0, 150.0, 165.0, 175.0, 190.0, 200.0, 220.0, 230.0, 240.0, 260.0]

  /** The gas marks, from the one below the first threshold to the one above the last. */
  const GAS_MARKS: seq<real> := [0.25, 1.0, 2.0, 3.0, 4.0, 5.0, 6.0, 7.0, 8.0, 9.0, 10.0]

  /** `convertCelsiusToGasMark`: the first threshold the temperature is below picks the mark. */
  function ConvertCelsiusToGasMark(tempCelsius: real): (g: real)
    ensures g in GAS_MARKS
  {
    if tempCelsius < 135.0 then 0.25
    else if tempCelsius < 150.0 then 1.0
    else if tempCelsius < 165.0 then 2.0
    else if tempCelsius < 175.0 then 3.0
    else if tempCelsius < 190.0 then 4.0
    else if tempCelsius < 200.0 then 5.0
    else if tempCelsius < 220.0 then 6.0
    else if tempCelsius < 230.0 then 7.0
    else if tempCelsius < 240.0 then 8.0
    else if tempCelsius < 260.0 then 9.0
    else 10.0
  }

  /** How many of `thresholds` the temperature has reached. */
  function ThresholdsReached(thresholds: seq<real>, tempCelsius: real): (n: nat)
    ensures n <= |thresholds|
  {
    if thresholds == [] then 0
    else (if thresholds[0] <= tempCelsius then 1 else 0) + ThresholdsReached(thresholds[1..], tempCelsius)
  }

  /** Reaching more of the thresholds takes a temperature at least as high. */
  lemma {:induction false} ThresholdsReachedMonotone(thresholds: seq<real>, a: real, b: real)
    requires a <= b
    ensures ThresholdsReached(thresholds, a) <= ThresholdsReached(thresholds, b)
    decreases |thresholds|
  {
    if thresholds != [] {
      ThresholdsReachedMonotone(thresholds[1..], a, b);
    }
  }

  /** In an ascending list, the thresholds reached are exactly those before the first one above the temperature. */
  lemma {:induction false} ThresholdsReachedCount(thresholds: seq<real>, tempCelsius: real, k: nat)
    requires forall i, j :: 0 <= i < j < |thresholds| ==> thresholds[i] <= thresholds[j]
    requires k <= |thresholds|
    requires k > 0 ==> thresholds[k - 1] <= tempCelsius
    requires k < |thresholds| ==> tempCelsius < thresholds[k]
    ensures ThresholdsReached(thresholds, tempCelsius) == k
    decreases |thresholds|
  {
    if thresholds != [] {
      if k > 0 {
        assert thresholds[0] <= thresholds[k - 1];
        ThresholdsReachedCount(thresholds[1..], tempCelsius, k - 1);
      } else {
        ThresholdsReachedCount(thresholds[1..], tempCelsius, 0);
      }
    }
  }

  /**
    The gas mark is a step function: it is the mark indexed by the number of
    thresholds reached, so it is 0.25 below 135 and 10 from 260 on.
   */
  lemma GasMarkIsStep(tempCelsius: real)
    ensures ConvertCelsiusToGasMark(tempCelsius) == GAS_MARKS[ThresholdsReached(GAS_MARK_THRESHOLDS, tempCelsius)]
    ensures tempCelsius < 135.0 ==> ConvertCelsiusToGasMark(tempCelsius) == 0.25
    ensures tempCelsius >= 260.0 ==> ConvertCelsiusToGasMark(tempCelsius) == 10.0
  {
    var ts := GAS_MARK_THRESHOLDS;
    var k := if tempCelsius < 135.0 then 0 else if tempCelsius < 150.0 then 1 else if tempCelsius < 165.0 then 2
      else if tempCelsius < 175.0 then 3 else if tempCelsius < 190.0 then 4 else if tempCelsius < 200.0 then 5
      else if tempCelsius < 220.0 then 6 else if tempCelsius < 230.0 then 7 else if tempCelsius < 240.0 then 8
      else if tempCelsius < 260.0 then 9 else 10;
    ThresholdsReachedCount(ts, tempCelsius, k);
  }

  /** A higher temperature never gives a lower gas mark. */
  lemma GasMarkMonotone(a: real, b: real)
    requires a <= b
    ensures ConvertCelsiusToGasMark(a) <= ConvertCelsiusToGasMark(b)
  {
    GasMarkIsStep(a);
    GasMarkIsStep(b);
    ThresholdsReachedMonotone(GAS_MARK_THRESHOLDS, a, b);
    var i := ThresholdsReached(GAS_MARK_THRESHOLDS, a);
    var j := ThresholdsReached(GAS_MARK_THRESHOLDS, b);
    assert forall x, y :: 0 <= x <= y < |GAS_MARKS| ==> GAS_MARKS[x] <= GAS_MARKS[y];
  }

  // ---------------------------------------------------------------------------
  // Binding
  // ---------------------------------------------------------------------------

  /** What one bound card shows; `temperature` is `None` when the view is gone. */
  datatype Card = Card(
    name: string,
    countdownText: string,
    countdownColour: TimerAdaptor.TextColour,
    temperature: Option<(real, string)>,
    startEnabled: bool,
    stopEnabled: bool,
    resetEnabled: bool,
    clickId: Int64)

  /**
    The full `onBindViewHolder(holder, position)` for the record at that
    position. `completedText` is the `timer_completed_text` string resource.
   */
  function FullBind(timer: Timer, currentTemperatureUnit: string, completedText: string): Card {
    var text := if timer.isCompleted then completedText else TimerAdaptor.FormatTime(timer.remainingTimeSeconds);
    var colour := if timer.isCompleted then TimerAdaptor.Red700 else TimerAdaptor.Blue600;
    var temperature := match timer.temperatureCelsius
      case Some(c) => Some(ConvertTemperature(c, currentTemperatureUnit))
      case None => None;
    Card(timer.name, text, colour, temperature, !timer.isRunning && !timer.isCompleted, timer.isRunning, true, timer.id)
  }

  /**
    The full bind shows the record: its name, its temperature exactly when it
    has one, the buttons of its state (Start only when neither running nor
    completed, Stop only when running, Reset always), the completed text in
    red for a completed record and its remaining time in blue otherwise,
    and buttons that call back with its id.
   */
  lemma FullBindSpec(timer: Timer, currentTemperatureUnit: string, completedText: string)
    ensures var c := FullBind(timer, currentTemperatureUnit, completedText);
      && c.name == timer.name && c.clickId == timer.id
      && (c.temperature.Some? <==> timer.temperatureCelsius.Some?)
      && (c.startEnabled <==> !timer.isRunning && !timer.isCompleted)
      && (c.stopEnabled <==> timer.isRunning)
      && c.resetEnabled
      && !(c.startEnabled && c.stopEnabled)
      && (timer.isCompleted ==> c.countdownText == completedText && c.countdownColour == TimerAdaptor.Red700)
      && (!timer.isCompleted ==>
            c.countdownText == TimerAdaptor.FormatTime(timer.remainingTimeSeconds)
            && c.countdownColour == TimerAdaptor.Blue600)
  {
  }

  /** `onBindViewHolder(holder, position)`: the full bind of the current list's item. */
  function BindViewHolder(currentList: seq<Timer>, position: int, currentTemperatureUnit: string, completedText: string): Card
    requires 0 <= position < |currentList|
  {
    FullBind(currentList[position], currentTemperatureUnit, completedText)
  }

  /**
    `onBindViewHolder(holder, position, payloads)`: with no payload, the full
    bind; otherwise only the countdown text of the card the holder shows is
    replaced, by the time in the first payload.
   */
  function BindWithPayloads(holder: Card, currentList: seq<Timer>, position: int, payloads: seq<Int32>,
                            currentTemperatureUnit: string, completedText: string): (c: Card)
    requires 0 <= position < |currentList|
  {
    if payloads == [] then BindViewHolder(currentList, position, currentTemperatureUnit, completedText)
    else holder.(countdownText := TimerAdaptor.FormatTime(payloads[0]))
  }

  /**
    A partial bind changes only the countdown text of the card the holder
    shows, which then reads as the clock of the payload (for a time left
    that is not negative), whatever the item at the position is; without a
    payload the card is the full bind of the item.
   */
  lemma BindWithPayloadsSpec(holder: Card, currentList: seq<Timer>, position: int, payloads: seq<Int32>,
                             currentTemperatureUnit: string, completedText: string)
    requires 0 <= position < |currentList|
    ensures var c := BindWithPayloads(holder, currentList, position, payloads, currentTemperatureUnit, completedText);
      payloads != [] ==>
        && c.(countdownText := holder.countdownText) == holder
        && (payloads[0] >= 0 ==> TimerAdaptor.IsClockText(c.countdownText) && TimerAdaptor.ClockValue(c.countdownText) == payloads[0])
    ensures payloads == [] ==>
      BindWithPayloads(holder, currentList, position, payloads, currentTemperatureUnit, completedText)
      == FullBind(currentList[position], currentTemperatureUnit, completedText)
  {
  }

  // ---------------------------------------------------------------------------
  // DiffUtil callbacks
  // ---------------------------------------------------------------------------

  /** `areItemsTheSame`: one row, by primary key. */
  predicate AreItemsTheSame(oldItem: Timer, newItem: Timer) {
    oldItem.id == newItem.id
  }

  /** `areContentsTheSame`: the data-class equality of the stored fields. */
  predicate AreContentsTheSame(oldItem: Timer, newItem: Timer) {
    oldItem == newItem
  }

  /** `getChangePayload` as written: the new remaining time whenever it differs, whatever else changed. */
  function GetChangePayload(oldItem: Timer, newItem: Timer): Option<Int32> {
    if newItem.remainingTimeSeconds != oldItem.remainingTimeSeconds then Some(newItem.remainingTimeSeconds) else None
  }

  /**
    The payload is there exactly when the remaining time differs, and then
    carries the new remaining time; equal contents never produce one.
   */
  lemma GetChangePayloadSpec(oldItem: Timer, newItem: Timer)
    ensures GetChangePayload(oldItem, newItem).Some? <==> oldItem.remainingTimeSeconds != newItem.remainingTimeSeconds
    ensures GetChangePayload(oldItem, newItem).Some? ==>
      GetChangePayload(oldItem, newItem).value == newItem.remainingTimeSeconds && !AreContentsTheSame(oldItem, newItem)
    ensures AreContentsTheSame(oldItem, newItem) ==> AreItemsTheSame(oldItem, newItem)
  {
  }

  /**
    How a card showing `oldItem` is redrawn when the list delivers `newItem`
    for the same row with other contents: the full bind when the payload is
    null, the partial bind with the payload otherwise.
   */
  function RedrawAsWritten(oldItem: Timer, newItem: Timer, currentTemperatureUnit: string, completedText: string): Card {
    var payload := GetChangePayload(oldItem, newItem);
    BindWithPayloads(FullBind(oldItem, currentTemperatureUnit, completedText), [newItem], 0,
                     if payload.Some? then [payload.value] else [], currentTemperatureUnit, completedText)
  }

  /**
    As written, resetting a completed one-minute record (remaining 0 to 60,
    completed to not completed) produces a time-only payload: the redrawn
    card shows "01:00" but keeps Start disabled and the red colour, where a
    full bind of the reset record enables Start and shows blue.
   */
  lemma RedrawAsWrittenKeepsStaleButtons()
    ensures var oldItem := DEFAULT_TIMER.(id := 1, initialDurationSeconds := 60, isCompleted := true);
      var newItem := oldItem.(remainingTimeSeconds := 60, isCompleted := false);
      var redrawn := RedrawAsWritten(oldItem, newItem, "Celsius", "Done");
      var full := FullBind(newItem, "Celsius", "Done");
      && AreItemsTheSame(oldItem, newItem) && !AreContentsTheSame(oldItem, newItem)
      && !redrawn.startEnabled && full.startEnabled
      && redrawn.countdownColour == TimerAdaptor.Red700 && full.countdownColour == TimerAdaptor.Blue600
      && redrawn.countdownText == full.countdownText
      && redrawn != full
  {
  }

  /**
    The redraw as written, for every pair of records: without a payload it is
    the full bind of the new record; with one it is the old card with only
    the text replaced by the new time, which is the full bind of the new
    record when the remaining time is the only change on a record that is not
    completed.
   */
  lemma RedrawAsWrittenSpec(oldItem: Timer, newItem: Timer, currentTemperatureUnit: string, completedText: string)
    ensures GetChangePayload(oldItem, newItem).None? ==>
      RedrawAsWritten(oldItem, newItem, currentTemperatureUnit, completedText) == FullBind(newItem, currentTemperatureUnit, completedText)
    ensures GetChangePayload(oldItem, newItem).Some? ==>
      RedrawAsWritten(oldItem, newItem, currentTemperatureUnit, completedText)
      == FullBind(oldItem, currentTemperatureUnit, completedText).(countdownText := TimerAdaptor.FormatTime(newItem.remainingTimeSeconds))
    ensures newItem == oldItem.(remainingTimeSeconds := newItem.remainingTimeSeconds) && !newItem.isCompleted ==>
      RedrawAsWritten(oldItem, newItem, currentTemperatureUnit, completedText) == FullBind(newItem, currentTemperatureUnit, completedText)
  {
  }

  /**
    `getChangePayload` as its comments intend: a payload only when the
    remaining time is the only change, on a record that is not completed
    (whose text is the time); any other change binds in full.
   */
  function GetChangePayloadTimeOnly(oldItem: Timer, newItem: Timer): Option<Int32> {
    if newItem.remainingTimeSeconds != oldItem.remainingTimeSeconds
       && newItem == oldItem.(remainingTimeSeconds := newItem.remainingTimeSeconds)
       && !newItem.isCompleted
    then Some(newItem.remainingTimeSeconds)
    else None
  }

  /** The redraw with the intended payload. */
  function Redraw(oldItem: Timer, newItem: Timer, currentTemperatureUnit: string, completedText: string): Card {
    var payload := GetChangePayloadTimeOnly(oldItem, newItem);
    BindWithPayloads(FullBind(oldItem, currentTemperatureUnit, completedText), [newItem], 0,
                     if payload.Some? then [payload.value] else [], currentTemperatureUnit, completedText)
  }

  /** With the intended payload, every redraw shows exactly what a full bind of the new record shows. */
  lemma RedrawMatchesFullBind(oldItem: Timer, newItem: Timer, currentTemperatureUnit: string, completedText: string)
    ensures Redraw(oldItem, newItem, currentTemperatureUnit, completedText) == FullBind(newItem, currentTemperatureUnit, completedText)
  {
    var payload := GetChangePayloadTimeOnly(oldItem, newItem);
    if payload.Some? {
      assert newItem == oldItem.(remainingTimeSeconds := newItem.remainingTimeSeconds);
    }
  }

  /** A tick (only the remaining time changes, on a record not completed) still gets the cheap partial redraw. */
  lemma TickKeepsPartialRedraw(oldItem: Timer, remaining: Int32)
    requires !oldItem.isCompleted && remaining != oldItem.remainingTimeSeconds
    ensures GetChangePayloadTimeOnly(oldItem, oldItem.(remainingTimeSeconds := remaining)) == Some(remaining)
    ensures GetChangePayload(oldItem, oldItem.(remainingTimeSeconds := remaining)) == Some(remaining)
  {
  }
}
