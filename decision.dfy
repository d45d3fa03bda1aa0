/**
 * The per-button logic of src/superbutton_rtos.c as values: the record the
 * consumer task keeps for every button, the interrupt handler's update of it,
 * the event copy made by send_event, and what one visit of the decision pass
 * does to one record. These functions are the specification that the class in
 * engine.dfy is proved against.
 */
module Decision {
  import opened SuperButtonDefs

  /** button_press_info_t. */
  datatype Button = Button(
    pin: Pin,
    currentLevel: Level,
    lastTrueLevel: Level,
    currentTick: Tick,
    lastTrueTick: Tick,
    clickCount: U16,
    clickType: ClickType,
    isBusy: bool,
    userData: UserData)

  /** The record after one visit and the events sent during it, in order. */
  datatype Outcome = Outcome(button: Button, events: seq<ClickEvent>)

  /**
   * The shape every record keeps between passes: a stored click type is either
   * nothing or the LongPressStart marker, the marker implies no pending clicks
   * and a confirmed Down level, a record whose level is still undefined is idle and has never confirmed a
   * level, and nothing is counted before the first confirmed level. A record
   * that is not busy is settled: its sampled level is confirmed and no click
   * is pending, so a pass that skips it loses nothing.
   */
  predicate Consistent(b: Button)
  {
    && (b.clickType == Empty || b.clickType == LongPressStart)
    && (b.clickType == LongPressStart ==> b.clickCount == 0 && b.lastTrueLevel == Down)
    && (b.currentLevel == Undef ==> !b.isBusy && b.lastTrueLevel == Undef)
    && (b.lastTrueLevel == Undef ==> b.clickCount == 0)
    && (!b.isBusy ==> b.clickCount == 0 && b.currentLevel == b.lastTrueLevel)
  }

  // ---------------------------------------------------------------------
  // The interrupt handler and the record set-up
  // ---------------------------------------------------------------------

  /** The polarity mapping of button_isr_handler from a raw pin level. */
  function MapLevel(pull: PullDirection, raw: int): (level: Level)
    ensures level != Undef
    ensures pull == PullDown ==> (level == Up <==> raw == 0)
    ensures pull == PullUp ==> (level == Down <==> raw == 0)
  {
    if pull == PullDown then
      (if raw == 0 then Up else Down)
    else
      (if raw == 0 then Down else Up)
  }

  /** What the interrupt handler writes into a record. */
  function IsrUpdate(b: Button, pull: PullDirection, raw: int, now: Tick): (r: Button)
    ensures r.currentLevel == MapLevel(pull, raw) && r.currentTick == now && r.isBusy
    ensures r.pin == b.pin && r.userData == b.userData
    ensures r.lastTrueLevel == b.lastTrueLevel && r.lastTrueTick == b.lastTrueTick
    ensures r.clickCount == b.clickCount && r.clickType == b.clickType
    ensures Consistent(b) ==> Consistent(r)
  {
    b.(currentLevel := MapLevel(pull, raw), currentTick := now, isBusy := true)
  }

  /**
   * The record superbutton_init builds for one configured button. The source
   * leaves click_count out of its designated initializer, which C fills with 0.
   */
  function InitialRecord(cfg: ButtonConfig): (r: Button)
    ensures r.pin == cfg.pin && r.userData == cfg.userData
    ensures r.currentLevel == Undef && r.lastTrueLevel == Undef
    ensures r.currentTick == 0 && r.lastTrueTick == 0
    ensures r.clickCount == 0 && r.clickType == Empty && !r.isBusy
    ensures Consistent(r)
    ensures forall timedOut: bool, now: Tick :: Visit(r, timedOut, now) == Outcome(r, [])
  {
    Button(cfg.pin, Undef, Undef, 0, 0, 0, Empty, false, cfg.userData)
  }

  // ---------------------------------------------------------------------
  // Field arithmetic and the event copy
  // ---------------------------------------------------------------------

  /** `current_tick - last_true_level_tick_count` in unsigned TickType_t arithmetic. */
  function Elapsed(now: Tick, since: Tick): (period: Tick)
    ensures since <= now ==> period == now - since
    ensures now < since ==> period == now - since + TICK_MODULUS
    ensures (since + period) % TICK_MODULUS == now
  {
    (now - since) % TICK_MODULUS
  }

  /** `click_count++` on a uint16_t. */
  function IncCount(c: U16): (r: U16)
    ensures c < 0xFFFF ==> r == c + 1
    ensures c == 0xFFFF ==> r == 0
  {
    (c + 1) % 0x1_0000
  }

  /**
   * The event send_event fills in from a record: the click count is narrowed
   * from the record's uint16_t to the event's uint8_t, and duration_ms is never
   * written, so it keeps the zero of its static storage.
   */
  function EventOf(b: Button): (e: ClickEvent)
    ensures e.pin == b.pin && e.userData == b.userData && e.clickType == b.clickType
    ensures e.clickCount == b.clickCount % 0x100
    ensures b.clickCount < 0x100 ==> e.clickCount == b.clickCount
    ensures e.durationMs == 0
  {
    ClickEvent(b.pin, b.userData, b.clickType, b.clickCount % 0x100, 0)
  }

  /** The transition tag sent for a new level. */
  function TransitionType(level: Level): ClickType
  {
    if level == Up then ButtonUp else ButtonDown
  }

  // ---------------------------------------------------------------------
  // One visit of the decision pass to one record
  // ---------------------------------------------------------------------

  /** The record has been stable for longer than the debounce window. */
  predicate Debounced(b: Button, tick: Tick)
  {
    Elapsed(tick, b.lastTrueTick) > DEBOUNCE_TICKS
  }

  /** The sampled level differs from the confirmed one. */
  predicate Changed(b: Button)
  {
    b.currentLevel != b.lastTrueLevel
  }

  predicate InMultiClickWindow(period: Tick)
  {
    MULTI_CLICK_GAP_TICKS <= period < LONG_PRESS_START_GAP_TICKS
  }

  predicate InLongWindow(period: Tick)
  {
    period >= LONG_PRESS_START_GAP_TICKS
  }

  /** Held down since the last confirmed change, with no LongPressStart sent for it yet. */
  predicate HeldWithoutLongPress(b: Button)
  {
    b.currentLevel == Down && b.lastTrueLevel == Down && b.clickType == Empty
  }

  /** The click count once the counting step has seen the record. */
  function CountAfterRelease(b: Button, tick: Tick): U16
  {
    if Debounced(b, tick) && b.currentLevel == Up && b.lastTrueLevel == Down
    then IncCount(b.clickCount)
    else b.clickCount
  }

  /** The events end with a classified gesture. */
  predicate Classified(evs: seq<ClickEvent>)
  {
    |evs| > 0 && IsClassification(evs[|evs| - 1].clickType)
  }

  /** Send Down or Up on a level change, then clear the click type. */
  function Announce(b: Button): (o: Outcome)
    ensures o.button == b.(clickType := o.button.clickType)
    ensures Changed(b) ==> o.button.clickType == Empty && o.events == [EventOf(b.(clickType := TransitionType(b.currentLevel)))]
    ensures !Changed(b) ==> o == Outcome(b, [])
  {
    if b.currentLevel != b.lastTrueLevel then
      Outcome(b.(clickType := Empty), [EventOf(b.(clickType := TransitionType(b.currentLevel)))])
    else
      Outcome(b, [])
  }

  /** Count a confirmed release; an Up after an undefined level ends the button's activity. */
  function CountClick(b: Button): (r: Button)
    ensures r == b.(clickCount := r.clickCount, isBusy := r.isBusy)
    ensures r.isBusy ==> b.isBusy
    ensures r.clickCount != b.clickCount ==> b.currentLevel == Up && b.lastTrueLevel == Down
    // A release of a confirmed press counts one click, wrapping at 16 bits.
    ensures b.currentLevel == Up && b.lastTrueLevel == Down ==>
      r.clickCount == IncCount(b.clickCount) && r.isBusy == b.isBusy
    // An Up sample with no confirmed level yet ends the activity without counting.
    ensures b.currentLevel == Up && b.lastTrueLevel == Undef ==>
      r.clickCount == b.clickCount && !r.isBusy
    // Any other record passes through.
    ensures b.currentLevel != Up || b.lastTrueLevel == Up ==> r == b
  {
    if b.currentLevel == Up && b.lastTrueLevel == Down then
      b.(clickCount := IncCount(b.clickCount))
    else if b.currentLevel == Up && b.lastTrueLevel == Undef then
      b.(isBusy := false)
    else
      b
  }

  /** Classify by the time since the last confirmed change. */
  function Classify(b: Button, period: Tick): (o: Outcome)
    ensures o.button == b.(clickCount := o.button.clickCount, clickType := o.button.clickType, isBusy := o.button.isBusy)
    ensures o.button.isBusy ==> b.isBusy
    ensures o.button.clickCount != b.clickCount ==> o.button.clickCount == 0
    ensures o.button.clickType != b.clickType ==>
      || o.button.clickType == Empty
      || (o.button.clickType == LongPressStart && o.button.clickCount == 0 && b.lastTrueLevel == Down)
    ensures |o.events| <= 1
    ensures o.events != [] ==>
      IsClassification(o.events[0].clickType) && o.events[0].pin == b.pin && o.events[0].userData == b.userData
    // Below the multi-click gap nothing happens.
    ensures period < MULTI_CLICK_GAP_TICKS ==> o == Outcome(b, [])
    // In the multi-click window pending clicks are reported by number and
    // cleared, and a released button stops being busy.
    ensures InMultiClickWindow(period) ==>
      && o.events == (if b.clickCount == 0 then [] else
                        [EventOf(b.(clickType := if b.clickCount == 1 then SingleClick else MultiClick))])
      && o.button.clickCount == 0
      && o.button.clickType == (if b.clickCount == 0 then b.clickType else Empty)
      && o.button.isBusy == (b.isBusy && b.currentLevel != Up)
    // In the long window a held button gets LongPressStart once, a single
    // pending click becomes a LongClick, and anything else is left alone.
    ensures InLongWindow(period) && HeldWithoutLongPress(b) ==>
      o == Outcome(b.(clickType := LongPressStart, clickCount := 0, isBusy := false),
                   [EventOf(b.(clickType := LongPressStart))])
    ensures InLongWindow(period) && !HeldWithoutLongPress(b) && b.clickCount == 1 ==>
      o == Outcome(b.(clickCount := 0, clickType := Empty, isBusy := false), [EventOf(b.(clickType := LongClick))])
    ensures InLongWindow(period) && !HeldWithoutLongPress(b) && b.clickCount != 1 ==> o == Outcome(b, [])
  {
    if MULTI_CLICK_GAP_TICKS <= period < LONG_PRESS_START_GAP_TICKS then
      var reported :=
        if b.clickCount > 0 then
          Outcome(b.(clickCount := 0, clickType := Empty),
                  [EventOf(b.(clickType := if b.clickCount == 1 then SingleClick else MultiClick))])
        else
          Outcome(b, []);
      if b.currentLevel == Up then
        Outcome(reported.button.(isBusy := false), reported.events)
      else
        reported
    else if period >= LONG_PRESS_START_GAP_TICKS then
      if b.currentLevel == Down && b.lastTrueLevel == Down && b.clickType == Empty then
        Outcome(b.(clickType := LongPressStart, clickCount := 0, isBusy := false),
                [EventOf(b.(clickType := LongPressStart))])
      else if b.clickCount == 1 then
        Outcome(b.(clickCount := 0, clickType := Empty, isBusy := false),
                [EventOf(b.(clickType := LongClick))])
      else
        Outcome(b, [])
    else
      Outcome(b, [])
  }

  /** Confirm the sampled level and its tick when they differ from the confirmed ones. */
  function Commit(b: Button): (r: Button)
    ensures r == b.(lastTrueLevel := r.lastTrueLevel, lastTrueTick := r.lastTrueTick)
    ensures Changed(b) ==> r.lastTrueLevel == b.currentLevel && r.lastTrueTick == b.currentTick
    ensures !Changed(b) ==> r == b
  {
    if b.currentLevel != b.lastTrueLevel then
      b.(lastTrueLevel := b.currentLevel, lastTrueTick := b.currentTick)
    else
      b
  }

  /**
   * The decision for one busy record, measured at `tick`: the debounce test,
   * then transition, counting, classification and commit, in that order.
   */
  function Decide(b: Button, tick: Tick): (o: Outcome)
    // Debounce: a record whose confirmed level is too recent is left untouched.
    ensures !Debounced(b, tick) ==> o == Outcome(b, [])
  {
    var period := Elapsed(tick, b.lastTrueTick);
    if period <= DEBOUNCE_TICKS then
      Outcome(b, [])
    else
      var announced := Announce(b);
      var counted := CountClick(announced.button);
      var classified := Classify(counted, period);
      Outcome(Commit(classified.button), announced.events + classified.events)
  }

  /**
   * One visit of the pass: a record that is not busy is skipped; a busy one is
   * decided at the wall-clock tick after a receive timeout and at its own
   * interrupt tick otherwise.
   */
  function Visit(b: Button, timedOut: bool, now: Tick): (o: Outcome)
    ensures !b.isBusy ==> o == Outcome(b, [])
    ensures |o.events| <= 2
    ensures o.button.isBusy ==> b.isBusy
    ensures o.button.pin == b.pin && o.button.userData == b.userData
    ensures forall k :: 0 <= k < |o.events| ==> o.events[k].pin == b.pin && o.events[k].userData == b.userData
    ensures Consistent(b) ==> Consistent(o.button)
    ensures timedOut && b.isBusy && Elapsed(now, b.lastTrueTick) <= DEBOUNCE_TICKS ==> o == Outcome(b, [])
    ensures !timedOut && b.isBusy && Elapsed(b.currentTick, b.lastTrueTick) <= DEBOUNCE_TICKS ==> o == Outcome(b, [])
  {
    if !b.isBusy then
      Outcome(b, [])
    else
      var tick := if timedOut then now else b.currentTick;
      DecideFrame(b, tick);
      DecideSendsAtMostTwo(b, tick);
      if Consistent(b) then
        DecideKeepsConsistent(b, tick);
        Decide(b, tick)
      else
        Decide(b, tick)
  }
  // ---------------------------------------------------------------------
  // What one decision does to the click count, by window
  // ---------------------------------------------------------------------

  /**
   * A decision past the debounce window, stage by stage: the count the
   * classification sees, and the classification as the only possible source
   * of the last event being a classified gesture.
   */
  lemma DecideStages(b: Button, tick: Tick)
    requires Debounced(b, tick)
    ensures var announced := Announce(b);
      var counted := CountClick(announced.button);
      var classified := Classify(counted, Elapsed(tick, b.lastTrueTick));
      var o := Decide(b, tick);
      && counted.clickCount == CountAfterRelease(b, tick)
      && o.button == Commit(classified.button)
      && o.events == announced.events + classified.events
      && |classified.events| <= 1
      && (Classified(o.events) <==> classified.events != [])
      && (classified.events != [] ==> o.events[|o.events| - 1] == classified.events[0])
  {
    var announced := Announce(b);
    var classified := Classify(CountClick(announced.button), Elapsed(tick, b.lastTrueTick));
    var evs := announced.events + classified.events;
    if classified.events == [] {
      assert evs == announced.events;
    } else {
      assert evs[|evs| - 1] == classified.events[0];
    }
  }

  /**
   * What a decision never writes: the pin, the user data and the sampled level
   * and tick; the busy flag only clears; every event names the record's pin
   * and user data.
   */
  lemma DecideFrame(b: Button, tick: Tick)
    ensures var o := Decide(b, tick);
      && o.button.pin == b.pin && o.button.userData == b.userData
      && o.button.currentLevel == b.currentLevel && o.button.currentTick == b.currentTick
      && (o.button.isBusy ==> b.isBusy)
    ensures var o := Decide(b, tick);
      forall k :: 0 <= k < |o.events| ==> o.events[k].pin == b.pin && o.events[k].userData == b.userData
  {
    if Debounced(b, tick) {
      DecideStages(b, tick);
    }
  }

  /** A decision sends at most two events, and when it sends two the second is a classified gesture. */
  lemma DecideSendsAtMostTwo(b: Button, tick: Tick)
    ensures var o := Decide(b, tick);
      |o.events| <= 2 && (|o.events| == 2 ==> IsClassification(o.events[1].clickType))
  {
    if Debounced(b, tick) {
      DecideStages(b, tick);
    }
  }

  /** A decision keeps a consistent record consistent. */
  lemma DecideKeepsConsistent(b: Button, tick: Tick)
    requires Consistent(b)
    ensures Consistent(Decide(b, tick).button)
  {
    if Debounced(b, tick) {
      DecideStages(b, tick);
    }
  }

  /**
   * Down and Up are sent exactly on a confirmed level change, first, carrying
   * the new level and the count as it was; only then do the confirmed level
   * and its tick move, to the sampled ones.
   */
  lemma DecideAnnouncesChange(b: Button, tick: Tick)
    ensures var o := Decide(b, tick);
      Debounced(b, tick) ==> (Changed(b) <==> o.events != [] && IsTransition(o.events[0].clickType))
    ensures var o := Decide(b, tick);
      Debounced(b, tick) && Changed(b) ==>
        && o.events[0].clickType == TransitionType(b.currentLevel)
        && o.events[0].clickCount == b.clickCount % 0x100
        && o.button.clickType == Empty
        && o.button.lastTrueLevel == b.currentLevel && o.button.lastTrueTick == b.currentTick
    ensures var o := Decide(b, tick);
      !(Debounced(b, tick) && Changed(b)) ==>
        o.button.lastTrueLevel == b.lastTrueLevel && o.button.lastTrueTick == b.lastTrueTick
  {
    if Debounced(b, tick) {
      DecideStages(b, tick);
    }
  }

  /**
   * Only a confirmed Down-to-Up adds a click, and every classified gesture
   * resets the count; an Up after an undefined level ends the button's
   * activity without counting.
   */
  lemma DecideCountsClicks(b: Button, tick: Tick)
    ensures var o := Decide(b, tick);
      && (Classified(o.events) ==> o.button.clickCount == 0)
      && (!Classified(o.events) ==> o.button.clickCount == CountAfterRelease(b, tick))
    ensures var o := Decide(b, tick);
      Consistent(b) && Debounced(b, tick) && b.currentLevel == Up && b.lastTrueLevel == Undef ==>
        !o.button.isBusy && o.button.clickCount == b.clickCount && !Classified(o.events)
  {
    if Debounced(b, tick) {
      DecideStages(b, tick);
    }
  }

  /**
   * Below the multi-click gap nothing is classified; inside the multi-click
   * window exactly one SingleClick or MultiClick is sent when clicks are
   * pending, carrying their number, and a released button stops being busy.
   */
  lemma DecideMultiClickWindow(b: Button, tick: Tick)
    ensures Elapsed(tick, b.lastTrueTick) < MULTI_CLICK_GAP_TICKS ==> !Classified(Decide(b, tick).events)
    ensures var o, period := Decide(b, tick), Elapsed(tick, b.lastTrueTick);
      Debounced(b, tick) && InMultiClickWindow(period) ==>
        && (Classified(o.events) <==> CountAfterRelease(b, tick) > 0)
        && (Classified(o.events) ==>
              && o.events[|o.events| - 1].clickType ==
                   (if CountAfterRelease(b, tick) == 1 then SingleClick else MultiClick)
              && o.events[|o.events| - 1].clickCount == CountAfterRelease(b, tick) % 0x100
              && o.button.clickType == Empty)
        && (b.currentLevel == Up ==> !o.button.isBusy)
  {
    if Debounced(b, tick) {
      DecideStages(b, tick);
    }
  }

  /**
   * In the long window a button held down since its last confirmed change gets
   * one LongPressStart and keeps the marker; otherwise exactly one pending
   * click becomes a LongClick. The two windows never overlap.
   */
  lemma DecideLongWindow(b: Button, tick: Tick)
    ensures var o, period := Decide(b, tick), Elapsed(tick, b.lastTrueTick);
      Debounced(b, tick) && InLongWindow(period) && HeldWithoutLongPress(b) ==>
        && o.events == [EventOf(b.(clickType := LongPressStart))]
        && o.button.clickType == LongPressStart
        && o.button.clickCount == 0
        && !o.button.isBusy
    ensures var o, period := Decide(b, tick), Elapsed(tick, b.lastTrueTick);
      Debounced(b, tick) && InLongWindow(period) && !HeldWithoutLongPress(b) ==>
        && (Classified(o.events) <==> CountAfterRelease(b, tick) == 1)
        && (Classified(o.events) ==>
              && o.events[|o.events| - 1].clickType == LongClick
              && o.events[|o.events| - 1].clickCount == 1
              && o.button.clickType == Empty
              && !o.button.isBusy)
    ensures forall p: Tick :: !(InMultiClickWindow(p) && InLongWindow(p))
  {
    if Debounced(b, tick) {
      DecideStages(b, tick);
    }
  }

  /** Exactly when a decision ends a busy button's activity. */
  lemma DecideEndsActivity(b: Button, tick: Tick)
    requires b.isBusy
    ensures var o, period := Decide(b, tick), Elapsed(tick, b.lastTrueTick);
      !o.button.isBusy <==>
        Debounced(b, tick) &&
        (|| (b.currentLevel == Up && b.lastTrueLevel == Undef)
         || (InMultiClickWindow(period) && b.currentLevel == Up)
         || (InLongWindow(period) && (HeldWithoutLongPress(b) || CountAfterRelease(b, tick) == 1)))
  {
    if Debounced(b, tick) {
      DecideStages(b, tick);
    }
  }

  /**
   * Two or more released clicks that are first decided at or past the
   * long-press gap match no branch: nothing is sent and the record is left as
   * it was, still busy, so every later decision finds the same.
   */
  lemma LateMultiClickStaysPending(b: Button, tick: Tick)
    requires b.currentLevel == Up && b.lastTrueLevel == Up && b.clickType == Empty && b.clickCount >= 2
    requires InLongWindow(Elapsed(tick, b.lastTrueTick))
    ensures Decide(b, tick) == Outcome(b, [])
  {
    DecideStages(b, tick);
  }
}
