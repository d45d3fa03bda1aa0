/**
 * One button's history as a sequence of inputs: interrupts, which sample the
 * pin, and wakes of the consumer task, which decide. A visit of a pass reads
 * and writes only the record it visits (see SuperButtonRtos.PassVisitsAll),
 * which is why one button's history is modelled here on its own; how the
 * events of several buttons interleave in the queue is not stated by these
 * lemmas. The properties proved here span
 * several steps: the record stays consistent, a long press is announced once
 * per hold, and the gestures of the library's documentation produce the
 * events it promises.
 */
module Traces {
  import opened SuperButtonDefs
  import opened Decision

  /** What can happen to one button between two observations. */
  datatype Input =
    | Interrupt(raw: int, at: Tick)     // button_isr_handler with the pin's raw level and tick
    | Wake(timedOut: bool, now: Tick)   // one pass of the consumer task reaching this record

  /** The raw pin level that the interrupt handler maps to `level`. */
  function RawLevel(pull: PullDirection, level: Level): (raw: int)
    requires level != Undef
    ensures MapLevel(pull, raw) == level
    ensures raw == 0 || raw == 1
  {
    if (pull == PullDown) == (level == Up) then 0 else 1
  }

  /** Every raw level reads back as the level it is mapped to. */
  lemma RawLevelRoundTrip(pull: PullDirection, raw: int)
    requires raw == 0 || raw == 1
    ensures RawLevel(pull, MapLevel(pull, raw)) == raw
  {
  }

  /** One input applied to one record. */
  function Apply(b: Button, pull: PullDirection, input: Input): (o: Outcome)
    ensures input.Interrupt? ==> o == Outcome(IsrUpdate(b, pull, input.raw, input.at), [])
    ensures input.Wake? ==> o == Visit(b, input.timedOut, input.now)
    ensures Consistent(b) ==> Consistent(o.button)
    ensures |o.events| <= 2
    ensures o.button.pin == b.pin && o.button.userData == b.userData
    ensures forall k :: 0 <= k < |o.events| ==> o.events[k].pin == b.pin && o.events[k].userData == b.userData
  {
    match input
    case Interrupt(raw, at) => Outcome(IsrUpdate(b, pull, raw, at), [])
    case Wake(timedOut, now) => Visit(b, timedOut, now)
  }

  /** The record after a sequence of inputs, and the events sent on the way, in order. */
  function Run(b: Button, pull: PullDirection, inputs: seq<Input>): (o: Outcome)
    ensures Consistent(b) ==> Consistent(o.button)
    ensures |o.events| <= 2 * |inputs|
    ensures o.button.pin == b.pin && o.button.userData == b.userData
    ensures forall k :: 0 <= k < |o.events| ==> o.events[k].pin == b.pin && o.events[k].userData == b.userData
    decreases |inputs|
  {
    if inputs == [] then
      Outcome(b, [])
    else
      var first := Apply(b, pull, inputs[0]);
      var rest := Run(first.button, pull, inputs[1..]);
      Outcome(rest.button, first.events + rest.events)
  }

  // ---------------------------------------------------------------------
  // LongPressStart once per hold
  // ---------------------------------------------------------------------

  /**
   * Whether the button is in a hold that has already been announced: a
   * LongPressStart starts one, a ButtonUp ends it.
   */
  function NextHeld(e: ClickEvent, held: bool): bool
  {
    if e.clickType == LongPressStart then true
    else if e.clickType == ButtonUp then false
    else held
  }

  /** The announced-hold flag after a sequence of events. */
  function HeldAfter(evs: seq<ClickEvent>, held: bool): bool
    decreases |evs|
  {
    if evs == [] then held else HeldAfter(evs[1..], NextHeld(evs[0], held))
  }

  /** No LongPressStart is sent during a hold that has already been announced. */
  predicate OneLongPressPerHold(evs: seq<ClickEvent>, held: bool)
    decreases |evs|
  {
    evs == [] ||
    ((evs[0].clickType == LongPressStart ==> !held) && OneLongPressPerHold(evs[1..], NextHeld(evs[0], held)))
  }

  /** The property and the flag split over a concatenation of event sequences. */
  lemma {:induction false} OneLongPressPerHoldAppend(xs: seq<ClickEvent>, ys: seq<ClickEvent>, held: bool)
    ensures HeldAfter(xs + ys, held) == HeldAfter(ys, HeldAfter(xs, held))
    ensures OneLongPressPerHold(xs + ys, held) <==>
      OneLongPressPerHold(xs, held) && OneLongPressPerHold(ys, HeldAfter(xs, held))
    decreases |xs|
  {
    if xs == [] {
      assert xs + ys == ys;
    } else {
      assert (xs + ys)[0] == xs[0];
      assert (xs + ys)[1..] == xs[1..] + ys;
      OneLongPressPerHoldAppend(xs[1..], ys, NextHeld(xs[0], held));
    }
  }

  /**
   * One input of a consistent record keeps the property, with the record's
   * LongPressStart marker as the announced-hold flag before and after.
   */
  lemma ApplyOneLongPressPerHold(b: Button, pull: PullDirection, input: Input)
    requires Consistent(b)
    ensures var o := Apply(b, pull, input);
      && OneLongPressPerHold(o.events, b.clickType == LongPressStart)
      && HeldAfter(o.events, b.clickType == LongPressStart) == (o.button.clickType == LongPressStart)
  {
    var o := Apply(b, pull, input);
    var held := b.clickType == LongPressStart;
    if input.Wake? && b.isBusy {
      var tick := if input.timedOut then input.now else b.currentTick;
      if Debounced(b, tick) {
        var period := Elapsed(tick, b.lastTrueTick);
        var announced := Announce(b);
        var counted := CountClick(announced.button);
        var classified := Classify(counted, period);
        assert o.events == announced.events + classified.events;
        assert OneLongPressPerHold(announced.events, held);
        OneLongPressPerHoldAppend(announced.events, classified.events, held);
        if classified.events != [] {
          assert classified.events[1..] == [];
        }
      }
    }
  }

  /**
   * Over any run of a consistent record, no LongPressStart is sent while a
   * hold is already announced, and the announced-hold flag at the end is the
   * record's marker.
   */
  lemma {:induction false} RunOneLongPressPerHold(b: Button, pull: PullDirection, inputs: seq<Input>)
    requires Consistent(b)
    ensures var o := Run(b, pull, inputs);
      && OneLongPressPerHold(o.events, b.clickType == LongPressStart)
      && HeldAfter(o.events, b.clickType == LongPressStart) == (o.button.clickType == LongPressStart)
    decreases |inputs|
  {
    if inputs != [] {
      var first := Apply(b, pull, inputs[0]);
      ApplyOneLongPressPerHold(b, pull, inputs[0]);
      RunOneLongPressPerHold(first.button, pull, inputs[1..]);
      OneLongPressPerHoldAppend(first.events, Run(first.button, pull, inputs[1..]).events, b.clickType == LongPressStart);
    }
  }

  /** Between any two LongPressStart events there is a ButtonUp. */
  predicate LongPressStartsSeparated(evs: seq<ClickEvent>)
  {
    forall i, j :: 0 <= i < j < |evs| && evs[i].clickType == LongPressStart && evs[j].clickType == LongPressStart ==>
      exists m :: i < m < j && evs[m].clickType == ButtonUp
  }

  /** The recursive property implies the plain quantified one. */
  lemma {:induction false} SeparatedFromOnePerHold(evs: seq<ClickEvent>, held: bool)
    requires OneLongPressPerHold(evs, held)
    ensures LongPressStartsSeparated(evs)
    decreases |evs|
  {
    if evs != [] {
      var tail := evs[1..];
      SeparatedFromOnePerHold(tail, NextHeld(evs[0], held));
      forall i, j | 0 <= i < j < |evs| && evs[i].clickType == LongPressStart && evs[j].clickType == LongPressStart
        ensures exists m :: i < m < j && evs[m].clickType == ButtonUp
      {
        if i > 0 {
          assert tail[i - 1] == evs[i] && tail[j - 1] == evs[j];
          var m :| i - 1 < m < j - 1 && tail[m].clickType == ButtonUp;
          assert evs[m + 1] == tail[m];
        } else {
          ReleaseBeforeNextLongPress(tail, true);
          var m :| 0 <= m < j - 1 && tail[m].clickType == ButtonUp;
          assert evs[m + 1] == tail[m];
        }
      }
    }
  }

  /** During an announced hold, every LongPressStart comes after a ButtonUp. */
  lemma {:induction false} ReleaseBeforeNextLongPress(evs: seq<ClickEvent>, held: bool)
    requires OneLongPressPerHold(evs, held) && held
    ensures forall j :: 0 <= j < |evs| && evs[j].clickType == LongPressStart ==>
      exists m :: 0 <= m < j && evs[m].clickType == ButtonUp
    decreases |evs|
  {
    if evs != [] && evs[0].clickType != ButtonUp {
      var tail := evs[1..];
      ReleaseBeforeNextLongPress(tail, NextHeld(evs[0], held));
      forall j | 0 < j < |evs| && evs[j].clickType == LongPressStart
        ensures exists m :: 0 <= m < j && evs[m].clickType == ButtonUp
      {
        assert tail[j - 1] == evs[j];
        var m :| 0 <= m < j - 1 && tail[m].clickType == ButtonUp;
        assert evs[m + 1] == tail[m];
      }
    }
  }

  /** Every run from a consistent record that is not inside an announced hold keeps long presses separated. */
  lemma LongPressStartOncePerHold(b: Button, pull: PullDirection, inputs: seq<Input>)
    requires Consistent(b) && b.clickType != LongPressStart
    ensures LongPressStartsSeparated(Run(b, pull, inputs).events)
  {
    RunOneLongPressPerHold(b, pull, inputs);
    SeparatedFromOnePerHold(Run(b, pull, inputs).events, false);
  }

  // ---------------------------------------------------------------------
  // The gestures of the library's documentation
  // ---------------------------------------------------------------------

  /** Released, settled, not busy, nothing counted and nothing marked. */
  predicate Idle(b: Button)
  {
    b.currentLevel == Up && b.lastTrueLevel == Up && !b.isBusy && b.clickCount == 0 && b.clickType == Empty
  }

  /**
   * A run with any step function in place of Apply. Splitting a run is proved
   * once for it, where no step is unfolded, and carried over to Run.
   */
  function Fold(step: (Button, Input) -> Outcome, b: Button, inputs: seq<Input>): Outcome
    decreases |inputs|
  {
    if inputs == [] then Outcome(b, [])
    else
      var first := step(b, inputs[0]);
      var rest := Fold(step, first.button, inputs[1..]);
      Outcome(rest.button, first.events + rest.events)
  }

  /** A fold over two input sequences is the second folded from where the first ends. */
  lemma {:induction false} FoldAppend(step: (Button, Input) -> Outcome, b: Button, xs: seq<Input>, ys: seq<Input>)
    ensures var first := Fold(step, b, xs);
      var rest := Fold(step, first.button, ys);
      Fold(step, b, xs + ys) == Outcome(rest.button, first.events + rest.events)
    decreases |xs|
  {
    if xs == [] {
      assert xs + ys == ys;
    } else {
      assert (xs + ys)[0] == xs[0];
      assert (xs + ys)[1..] == xs[1..] + ys;
      FoldAppend(step, step(b, xs[0]).button, xs[1..], ys);
    }
  }

  /** Run is the fold of Apply. */
  lemma {:induction false} RunIsFold(b: Button, pull: PullDirection, inputs: seq<Input>)
    ensures Run(b, pull, inputs) == Fold((c: Button, x: Input) => Apply(c, pull, x), b, inputs)
    decreases |inputs|
  {
    if inputs != [] {
      RunIsFold(Apply(b, pull, inputs[0]).button, pull, inputs[1..]);
    }
  }

  /** Running two sequences of inputs one after the other is running their concatenation. */
  lemma RunAppend(b: Button, pull: PullDirection, xs: seq<Input>, ys: seq<Input>)
    ensures var first := Run(b, pull, xs);
      var rest := Run(first.button, pull, ys);
      Run(b, pull, xs + ys) == Outcome(rest.button, first.events + rest.events)
  {
    var first := Run(b, pull, xs);
    RunIsFold(b, pull, xs + ys);
    RunIsFold(b, pull, xs);
    RunIsFold(first.button, pull, ys);
    FoldAppend((c: Button, x: Input) => Apply(c, pull, x), b, xs, ys);
  }

  /** A run of one input is that input applied. */
  lemma RunOne(b: Button, pull: PullDirection, input: Input)
    ensures Run(b, pull, [input]) == Apply(b, pull, input)
  {
    assert [input][1..] == [];
  }

  /** A run of two inputs is the second applied after the first. */
  lemma RunTwo(b: Button, pull: PullDirection, x: Input, y: Input)
    ensures var first := Apply(b, pull, x);
      var second := Apply(first.button, pull, y);
      Run(b, pull, [x, y]) == Outcome(second.button, first.events + second.events)
  {
    assert [x, y][1..] == [y];
    RunOne(Apply(b, pull, x).button, pull, y);
  }

  /** The interrupt of a pin change at `t`, then the pass it wakes. */
  function Sample(pull: PullDirection, level: Level, t: Tick): seq<Input>
    requires level != Undef
  {
    [Interrupt(RawLevel(pull, level), t), Wake(false, t)]
  }

  /**
   * A settled press of a released record: ButtonDown is sent and the press is
   * the new confirmed level. With clicks pending, the press comes before the
   * multi-click gap, so nothing is classified yet.
   */
  lemma Press(b: Button, pull: PullDirection, t: Tick)
    requires b.currentLevel == Up && b.lastTrueLevel == Up && b.clickType == Empty
    requires b.lastTrueTick + DEBOUNCE_TICKS < t
    requires b.clickCount == 0 || t < b.lastTrueTick + MULTI_CLICK_GAP_TICKS
    ensures var o := Run(b, pull, Sample(pull, Down, t));
      && |o.events| == 1 && o.events[0].clickType == ButtonDown
      && o.button == b.(currentLevel := Down, lastTrueLevel := Down, isBusy := true, currentTick := t, lastTrueTick := t)
  {
    var s0 := Apply(b, pull, Interrupt(RawLevel(pull, Down), t));
    DecideStages(s0.button, t);
    RunTwo(b, pull, Interrupt(RawLevel(pull, Down), t), Wake(false, t));
  }

  /**
   * A press at or past the long-press gap, with two or more clicks pending:
   * the long window classifies nothing, so only ButtonDown is sent and the
   * clicks stay pending.
   */
  lemma LatePress(b: Button, pull: PullDirection, t: Tick)
    requires b.currentLevel == Up && b.lastTrueLevel == Up && b.clickType == Empty && b.clickCount >= 2
    requires b.lastTrueTick + LONG_PRESS_START_GAP_TICKS <= t
    ensures var o := Run(b, pull, Sample(pull, Down, t));
      && |o.events| == 1 && o.events[0].clickType == ButtonDown
      && o.button == b.(currentLevel := Down, lastTrueLevel := Down, isBusy := true, currentTick := t, lastTrueTick := t)
  {
    var s0 := Apply(b, pull, Interrupt(RawLevel(pull, Down), t));
    DecideStages(s0.button, t);
    RunTwo(b, pull, Interrupt(RawLevel(pull, Down), t), Wake(false, t));
  }

  /**
   * A settled release of a pressed record, before the multi-click gap: ButtonUp
   * is sent, one more click is counted and the record stays busy.
   */
  lemma Release(b: Button, pull: PullDirection, t: Tick)
    requires b.currentLevel == Down && b.lastTrueLevel == Down && b.clickType == Empty && b.clickCount < 0xFFFF
    requires b.lastTrueTick + DEBOUNCE_TICKS < t < b.lastTrueTick + MULTI_CLICK_GAP_TICKS
    ensures var o := Run(b, pull, Sample(pull, Up, t));
      && |o.events| == 1 && o.events[0].clickType == ButtonUp
      && o.button == b.(currentLevel := Up, lastTrueLevel := Up, clickCount := b.clickCount + 1, isBusy := true, currentTick := t, lastTrueTick := t)
  {
    var s0 := Apply(b, pull, Interrupt(RawLevel(pull, Up), t));
    DecideStages(s0.button, t);
    RunTwo(b, pull, Interrupt(RawLevel(pull, Up), t), Wake(false, t));
  }

  /** A press at `t1` and a release at `t2`. */
  function Click(pull: PullDirection, t1: Tick, t2: Tick): seq<Input>
  {
    Sample(pull, Down, t1) + Sample(pull, Up, t2)
  }

  /**
   * A settled press and release of a released record adds one click: Down and
   * Up are sent and the record stays busy waiting for the classification.
   */
  lemma ClickCounts(b: Button, pull: PullDirection, t1: Tick, t2: Tick)
    requires b.currentLevel == Up && b.lastTrueLevel == Up && b.clickType == Empty && b.clickCount < 0xFFFF
    requires b.lastTrueTick + DEBOUNCE_TICKS < t1
    requires b.clickCount == 0 || t1 < b.lastTrueTick + MULTI_CLICK_GAP_TICKS
    requires t1 + DEBOUNCE_TICKS < t2 < t1 + MULTI_CLICK_GAP_TICKS
    ensures var o := Run(b, pull, Click(pull, t1, t2));
      && |o.events| == 2
      && o.events[0].clickType == ButtonDown && o.events[1].clickType == ButtonUp
      && o.button == b.(clickCount := b.clickCount + 1, isBusy := true, currentTick := t2, lastTrueTick := t2)
  {
    var down, up := Sample(pull, Down, t1), Sample(pull, Up, t2);
    Press(b, pull, t1);
    var pressed := Run(b, pull, down);
    Release(pressed.button, pull, t2);
    var released := Run(pressed.button, pull, up);
    RunAppend(b, pull, down, up);
    assert Run(b, pull, Click(pull, t1, t2)) == Outcome(released.button, pressed.events + released.events);
  }

  /**
   * The receive timeout inside the multi-click window after pending clicks
   * were released: one SingleClick or MultiClick carrying their number, and
   * the button is idle again.
   */
  lemma GapClassifies(b: Button, pull: PullDirection, t: Tick)
    requires b.currentLevel == Up && b.lastTrueLevel == Up && b.clickType == Empty && b.isBusy && b.clickCount > 0
    requires b.lastTrueTick + MULTI_CLICK_GAP_TICKS <= t < b.lastTrueTick + LONG_PRESS_START_GAP_TICKS
    ensures var o := Run(b, pull, [Wake(true, t)]);
      && |o.events| == 1
      && o.events[0].clickType == (if b.clickCount == 1 then SingleClick else MultiClick)
      && o.events[0].clickCount == b.clickCount % 0x100
      && o.button == b.(clickCount := 0, isBusy := false)
  {
    DecideStages(b, t);
    RunOne(b, pull, Wake(true, t));
  }

  /**
   * One click, then the receive timeout in the multi-click window: ButtonDown,
   * ButtonUp, then a SingleClick counting one click, and the button is idle.
   */
  lemma SingleClickGesture(b: Button, pull: PullDirection, t1: Tick, t2: Tick, t3: Tick)
    requires Idle(b)
    requires b.lastTrueTick + DEBOUNCE_TICKS < t1
    requires t1 + DEBOUNCE_TICKS < t2 < t1 + MULTI_CLICK_GAP_TICKS
    requires t2 + MULTI_CLICK_GAP_TICKS <= t3 < t2 + LONG_PRESS_START_GAP_TICKS
    ensures var o := Run(b, pull, Click(pull, t1, t2) + [Wake(true, t3)]);
      && |o.events| == 3
      && o.events[0].clickType == ButtonDown
      && o.events[1].clickType == ButtonUp
      && o.events[2].clickType == SingleClick && o.events[2].clickCount == 1
      && Idle(o.button) && o.button.lastTrueTick == t2
  {
    ClickCounts(b, pull, t1, t2);
    var clicked := Run(b, pull, Click(pull, t1, t2));
    GapClassifies(clicked.button, pull, t3);
    RunAppend(b, pull, Click(pull, t1, t2), [Wake(true, t3)]);
  }

  /**
   * Two clicks, the second pressed before the multi-click gap, then the
   * receive timeout: Down, Up, Down, Up, then one MultiClick counting two.
   */
  lemma DoubleClickGesture(b: Button, pull: PullDirection, t1: Tick, t2: Tick, t3: Tick, t4: Tick, t5: Tick)
    requires Idle(b)
    requires b.lastTrueTick + DEBOUNCE_TICKS < t1
    requires t1 + DEBOUNCE_TICKS < t2 < t1 + MULTI_CLICK_GAP_TICKS
    requires t2 + DEBOUNCE_TICKS < t3 < t2 + MULTI_CLICK_GAP_TICKS
    requires t3 + DEBOUNCE_TICKS < t4 < t3 + MULTI_CLICK_GAP_TICKS
    requires t4 + MULTI_CLICK_GAP_TICKS <= t5 < t4 + LONG_PRESS_START_GAP_TICKS
    ensures var o := Run(b, pull, Click(pull, t1, t2) + Click(pull, t3, t4) + [Wake(true, t5)]);
      && |o.events| == 5
      && o.events[0].clickType == ButtonDown && o.events[1].clickType == ButtonUp
      && o.events[2].clickType == ButtonDown && o.events[3].clickType == ButtonUp
      && o.events[4].clickType == MultiClick && o.events[4].clickCount == 2
      && Idle(o.button) && o.button.lastTrueTick == t4
  {
    ClickCounts(b, pull, t1, t2);
    var first := Run(b, pull, Click(pull, t1, t2));
    ClickCounts(first.button, pull, t3, t4);
    var second := Run(first.button, pull, Click(pull, t3, t4));
    GapClassifies(second.button, pull, t5);
    RunAppend(b, pull, Click(pull, t1, t2), Click(pull, t3, t4));
    RunAppend(b, pull, Click(pull, t1, t2) + Click(pull, t3, t4), [Wake(true, t5)]);
  }

  /**
   * The receive timeout inside the multi-click window while a press with no
   * pending clicks is held: nothing is sent and the record waits, still busy.
   */
  lemma HeldPressWaits(b: Button, pull: PullDirection, t: Tick)
    requires b.currentLevel == Down && b.lastTrueLevel == Down && b.clickType == Empty && b.isBusy && b.clickCount == 0
    requires b.lastTrueTick + MULTI_CLICK_GAP_TICKS <= t < b.lastTrueTick + LONG_PRESS_START_GAP_TICKS
    ensures Run(b, pull, [Wake(true, t)]) == Outcome(b, [])
  {
    DecideStages(b, t);
    RunOne(b, pull, Wake(true, t));
  }

  /**
   * A press held past the long-press gap, then a settled release. The consumer
   * task, busy since the press, times out in the multi-click window (at `tm`,
   * which sends nothing) and again at or past the long-press gap (at `t2`):
   * ButtonDown, LongPressStart, ButtonUp, then a LongClick counting the one
   * click, and the button is idle.
   */
  lemma LongPressGesture(b: Button, pull: PullDirection, t1: Tick, tm: Tick, t2: Tick, t3: Tick)
    requires Idle(b)
    requires b.lastTrueTick + DEBOUNCE_TICKS < t1
    requires t1 + MULTI_CLICK_GAP_TICKS <= tm < t1 + LONG_PRESS_START_GAP_TICKS
    requires t1 + LONG_PRESS_START_GAP_TICKS <= t2 < t3
    ensures var o := Run(b, pull, Sample(pull, Down, t1) + [Wake(true, tm), Wake(true, t2)] + Sample(pull, Up, t3));
      && |o.events| == 4
      && o.events[0].clickType == ButtonDown
      && o.events[1].clickType == LongPressStart
      && o.events[2].clickType == ButtonUp
      && o.events[3].clickType == LongClick && o.events[3].clickCount == 1
      && Idle(o.button) && o.button.lastTrueTick == t3
  {
    Press(b, pull, t1);
    var pressed := Run(b, pull, Sample(pull, Down, t1));
    HeldPressWaits(pressed.button, pull, tm);
    DecideStages(pressed.button, t2);
    RunTwo(pressed.button, pull, Wake(true, tm), Wake(true, t2));
    var held := Run(pressed.button, pull, [Wake(true, tm), Wake(true, t2)]);
    assert held.button == pressed.button.(clickType := LongPressStart, isBusy := false);
    var s0 := Apply(held.button, pull, Interrupt(RawLevel(pull, Up), t3));
    DecideStages(s0.button, t3);
    RunTwo(held.button, pull, Interrupt(RawLevel(pull, Up), t3), Wake(false, t3));
    RunAppend(b, pull, Sample(pull, Down, t1), [Wake(true, tm), Wake(true, t2)]);
    RunAppend(b, pull, Sample(pull, Down, t1) + [Wake(true, tm), Wake(true, t2)], Sample(pull, Up, t3));
  }

  /**
   * A press released at or past the long-press gap with no receive timeout in
   * between, as when other buttons' interrupts keep waking the task (those
   * passes decide this record at its press tick and change nothing): no
   * LongPressStart is sent; the release sends ButtonUp and then a LongClick
   * counting the one click, and the button is idle.
   */
  lemma UnwatchedLongPress(b: Button, pull: PullDirection, t1: Tick, t2: Tick)
    requires Idle(b)
    requires b.lastTrueTick + DEBOUNCE_TICKS < t1
    requires t1 + LONG_PRESS_START_GAP_TICKS <= t2
    ensures var o := Run(b, pull, Sample(pull, Down, t1) + Sample(pull, Up, t2));
      && |o.events| == 3
      && o.events[0].clickType == ButtonDown
      && o.events[1].clickType == ButtonUp
      && o.events[2].clickType == LongClick && o.events[2].clickCount == 1
      && Idle(o.button) && o.button.lastTrueTick == t2
  {
    Press(b, pull, t1);
    var pressed := Run(b, pull, Sample(pull, Down, t1));
    var s0 := Apply(pressed.button, pull, Interrupt(RawLevel(pull, Up), t2));
    DecideStages(s0.button, t2);
    RunTwo(pressed.button, pull, Interrupt(RawLevel(pull, Up), t2), Wake(false, t2));
    RunAppend(b, pull, Sample(pull, Down, t1), Sample(pull, Up, t2));
  }

  /**
   * A bounce while the button is held: an interrupt that reads Up and then one
   * that reads Down again, 400 or more ticks after the press, move the
   * record's interrupt tick, and the pass they wake decides the held button
   * there and sends LongPressStart without any timeout.
   */
  lemma BounceStartsLongPress(b: Button, pull: PullDirection, t1: Tick, tu: Tick, t2: Tick)
    requires Idle(b)
    requires b.lastTrueTick + DEBOUNCE_TICKS < t1
    requires t1 + LONG_PRESS_START_GAP_TICKS <= t2
    ensures var o := Run(b, pull, Sample(pull, Down, t1) + [Interrupt(RawLevel(pull, Up), tu)] + Sample(pull, Down, t2));
      && |o.events| == 2
      && o.events[0].clickType == ButtonDown
      && o.events[1].clickType == LongPressStart
      && o.button.clickType == LongPressStart && o.button.lastTrueTick == t1 && !o.button.isBusy
  {
    Press(b, pull, t1);
    var pressed := Run(b, pull, Sample(pull, Down, t1));
    RunOne(pressed.button, pull, Interrupt(RawLevel(pull, Up), tu));
    var bounced := Run(pressed.button, pull, [Interrupt(RawLevel(pull, Up), tu)]);
    assert bounced.events == [];
    var s0 := Apply(bounced.button, pull, Interrupt(RawLevel(pull, Down), t2));
    assert s0.button == pressed.button.(currentTick := t2);
    DecideStages(s0.button, t2);
    RunTwo(bounced.button, pull, Interrupt(RawLevel(pull, Down), t2), Wake(false, t2));
    RunAppend(b, pull, Sample(pull, Down, t1), [Interrupt(RawLevel(pull, Up), tu)]);
    RunAppend(b, pull, Sample(pull, Down, t1) + [Interrupt(RawLevel(pull, Up), tu)], Sample(pull, Down, t2));
  }

  /**
   * Clicks pending when the button was pressed again are reported by a timeout
   * in the multi-click window even while the button is held; the count starts
   * again and the record stays busy.
   */
  lemma HeldClicksReported(b: Button, pull: PullDirection, t: Tick)
    requires b.currentLevel == Down && b.lastTrueLevel == Down && b.clickType == Empty && b.isBusy && b.clickCount > 0
    requires b.lastTrueTick + MULTI_CLICK_GAP_TICKS <= t < b.lastTrueTick + LONG_PRESS_START_GAP_TICKS
    ensures var o := Run(b, pull, [Wake(true, t)]);
      && |o.events| == 1
      && o.events[0].clickType == (if b.clickCount == 1 then SingleClick else MultiClick)
      && o.events[0].clickCount == b.clickCount % 0x100
      && o.button == b.(clickCount := 0)
  {
    DecideStages(b, t);
    RunOne(b, pull, Wake(true, t));
  }

  /**
   * A click pending when the button is pressed again, and a timeout inside the
   * multi-click window while it is held: the pending click is sent as a
   * SingleClick while the button is still down, the count starts again, and a
   * release at or past the long-press gap, before the next timeout, sends
   * ButtonUp and a LongClick. No LongPressStart is sent.
   */
  lemma ClickThenLongClick(b: Button, pull: PullDirection, t1: Tick, tm: Tick, t2: Tick)
    requires b.currentLevel == Up && b.lastTrueLevel == Up && b.clickType == Empty && b.isBusy && b.clickCount == 1
    requires b.lastTrueTick + DEBOUNCE_TICKS < t1 < b.lastTrueTick + MULTI_CLICK_GAP_TICKS
    requires t1 + MULTI_CLICK_GAP_TICKS <= tm < t1 + LONG_PRESS_START_GAP_TICKS
    requires t1 + LONG_PRESS_START_GAP_TICKS <= t2 < tm + BUSY_WAIT_TICKS
    ensures var o := Run(b, pull, Sample(pull, Down, t1) + [Wake(true, tm)] + Sample(pull, Up, t2));
      && |o.events| == 4
      && o.events[0].clickType == ButtonDown
      && o.events[1].clickType == SingleClick && o.events[1].clickCount == 1
      && o.events[2].clickType == ButtonUp
      && o.events[3].clickType == LongClick && o.events[3].clickCount == 1
      && Idle(o.button) && o.button.lastTrueTick == t2
  {
    Press(b, pull, t1);
    var pressed := Run(b, pull, Sample(pull, Down, t1));
    HeldClicksReported(pressed.button, pull, tm);
    var waited := Run(pressed.button, pull, [Wake(true, tm)]);
    var s0 := Apply(waited.button, pull, Interrupt(RawLevel(pull, Up), t2));
    DecideStages(s0.button, t2);
    RunTwo(waited.button, pull, Interrupt(RawLevel(pull, Up), t2), Wake(false, t2));
    RunAppend(b, pull, Sample(pull, Down, t1), [Wake(true, tm)]);
    RunAppend(b, pull, Sample(pull, Down, t1) + [Wake(true, tm)], Sample(pull, Up, t2));
  }

  /**
   * A click pending when the button is pressed again, with no timeout until a
   * release at or past the long-press gap: the release counts a second click,
   * which the long window does not classify, but it also confirms the release
   * tick, so the next timeout, 200 to 400 ticks later, sends a MultiClick
   * counting both clicks.
   */
  lemma ClickThenLateRelease(b: Button, pull: PullDirection, t1: Tick, t2: Tick, t3: Tick)
    requires b.currentLevel == Up && b.lastTrueLevel == Up && b.clickType == Empty && b.isBusy && b.clickCount == 1
    requires b.lastTrueTick + DEBOUNCE_TICKS < t1 < b.lastTrueTick + MULTI_CLICK_GAP_TICKS
    requires t1 + LONG_PRESS_START_GAP_TICKS <= t2
    requires t2 + MULTI_CLICK_GAP_TICKS <= t3 < t2 + LONG_PRESS_START_GAP_TICKS
    ensures var o := Run(b, pull, Sample(pull, Down, t1) + Sample(pull, Up, t2) + [Wake(true, t3)]);
      && |o.events| == 3
      && o.events[0].clickType == ButtonDown
      && o.events[1].clickType == ButtonUp
      && o.events[2].clickType == MultiClick && o.events[2].clickCount == 2
      && Idle(o.button) && o.button.lastTrueTick == t2
  {
    Press(b, pull, t1);
    var pressed := Run(b, pull, Sample(pull, Down, t1));
    var s0 := Apply(pressed.button, pull, Interrupt(RawLevel(pull, Up), t2));
    DecideStages(s0.button, t2);
    RunTwo(pressed.button, pull, Interrupt(RawLevel(pull, Up), t2), Wake(false, t2));
    var released := Run(pressed.button, pull, Sample(pull, Up, t2));
    assert released.button == pressed.button.(currentLevel := Up, lastTrueLevel := Up, clickCount := 2, currentTick := t2, lastTrueTick := t2);
    GapClassifies(released.button, pull, t3);
    RunAppend(b, pull, Sample(pull, Down, t1), Sample(pull, Up, t2));
    RunAppend(b, pull, Sample(pull, Down, t1) + Sample(pull, Up, t2), [Wake(true, t3)]);
  }

  /**
   * Clicks left pending by LateMultiClickStaysPending are not lost: the
   * button's next click, pressed at or past the long-press gap, adds to them,
   * and the next timeout in the multi-click window reports all of them in one
   * MultiClick.
   */
  lemma PendingClicksMerge(b: Button, pull: PullDirection, t1: Tick, t2: Tick, t3: Tick)
    requires b.currentLevel == Up && b.lastTrueLevel == Up && b.clickType == Empty && b.isBusy
    requires 2 <= b.clickCount < 0xFFFF
    requires b.lastTrueTick + LONG_PRESS_START_GAP_TICKS <= t1
    requires t1 + DEBOUNCE_TICKS < t2 < t1 + MULTI_CLICK_GAP_TICKS
    requires t2 + MULTI_CLICK_GAP_TICKS <= t3 < t2 + LONG_PRESS_START_GAP_TICKS
    ensures var o := Run(b, pull, Click(pull, t1, t2) + [Wake(true, t3)]);
      && |o.events| == 3
      && o.events[0].clickType == ButtonDown
      && o.events[1].clickType == ButtonUp
      && o.events[2].clickType == MultiClick && o.events[2].clickCount == (b.clickCount + 1) % 0x100
      && Idle(o.button) && o.button.lastTrueTick == t2
  {
    LatePress(b, pull, t1);
    var pressed := Run(b, pull, Sample(pull, Down, t1));
    Release(pressed.button, pull, t2);
    var released := Run(pressed.button, pull, Sample(pull, Up, t2));
    GapClassifies(released.button, pull, t3);
    RunAppend(b, pull, Sample(pull, Down, t1), Sample(pull, Up, t2));
    RunAppend(b, pull, Click(pull, t1, t2), [Wake(true, t3)]);
  }

  /**
   * `|presses|` clicks, the click number `i` pressed at `presses[i]` and
   * released at `releases[i]`.
   */
  function Clicks(pull: PullDirection, presses: seq<Tick>, releases: seq<Tick>): seq<Input>
    requires |presses| == |releases|
  {
    if presses == [] then []
    else
      var n := |presses| - 1;
      Clicks(pull, presses[..n], releases[..n]) + Click(pull, presses[n], releases[n])
  }

  /**
   * The timing of a click train: every press and release is settled, and each
   * press but the first comes before the multi-click gap after the previous
   * release, so the clicks add up.
   */
  predicate ClickTrain(b: Button, presses: seq<Tick>, releases: seq<Tick>)
  {
    && |presses| == |releases|
    && (|presses| > 0 ==> b.lastTrueTick + DEBOUNCE_TICKS < presses[0])
    && (forall i :: 0 <= i < |presses| ==>
          presses[i] + DEBOUNCE_TICKS < releases[i] < presses[i] + MULTI_CLICK_GAP_TICKS)
    && (forall i :: 0 < i < |presses| ==>
          releases[i - 1] + DEBOUNCE_TICKS < presses[i] < releases[i - 1] + MULTI_CLICK_GAP_TICKS)
  }

  /** ButtonDown and ButtonUp alternately, starting with ButtonDown. */
  predicate Alternating(evs: seq<ClickEvent>)
  {
    forall k :: 0 <= k < |evs| ==> evs[k].clickType == (if k % 2 == 0 then ButtonDown else ButtonUp)
  }

  /** Alternating events stay alternating after a prefix of `pairs` Down/Up pairs. */
  lemma AlternatingAppend(xs: seq<ClickEvent>, ys: seq<ClickEvent>, pairs: nat)
    requires Alternating(xs) && Alternating(ys) && |xs| == 2 * pairs
    ensures Alternating(xs + ys)
  {
    forall k | |xs| <= k < |xs + ys|
      ensures (xs + ys)[k].clickType == (if k % 2 == 0 then ButtonDown else ButtonUp)
    {
      assert (xs + ys)[k] == ys[k - |xs|];
      SameParity(k - 2 * pairs, pairs);
    }
  }

  /** Adding an even number keeps the parity. */
  lemma {:induction false} SameParity(j: nat, pairs: nat)
    ensures (j + 2 * pairs) % 2 == j % 2
    decreases pairs
  {
    if pairs > 0 {
      SameParity(j, pairs - 1);
    }
  }

  /** The first clicks of a train are a train. */
  lemma ClickTrainPrefix(b: Button, presses: seq<Tick>, releases: seq<Tick>, n: nat)
    requires ClickTrain(b, presses, releases) && n <= |presses|
    ensures ClickTrain(b, presses[..n], releases[..n])
  {
  }

  /** A nonempty train is the train of all clicks but the last, then the last. */
  lemma ClicksLast(pull: PullDirection, presses: seq<Tick>, releases: seq<Tick>)
    requires |presses| == |releases| > 0
    ensures var n := |presses| - 1;
      Clicks(pull, presses, releases) == Clicks(pull, presses[..n], releases[..n]) + Click(pull, presses[n], releases[n])
  {
  }

  /**
   * A click train on a released record with nothing pending sends ButtonDown
   * and ButtonUp alternately, one pair per click, and leaves the record busy
   * with every click counted.
   */
  lemma {:induction false} ClicksCount(b: Button, pull: PullDirection, presses: seq<Tick>, releases: seq<Tick>)
    requires b.currentLevel == Up && b.lastTrueLevel == Up && b.clickType == Empty && b.clickCount == 0
    requires ClickTrain(b, presses, releases) && |presses| <= 0xFFFF
    ensures var o := Run(b, pull, Clicks(pull, presses, releases));
      && |o.events| == 2 * |presses|
      && Alternating(o.events)
      && (presses == [] ==> o.button == b)
      && (presses != [] ==>
            var last := releases[|releases| - 1];
            o.button == b.(clickCount := |presses|, isBusy := true, currentTick := last, lastTrueTick := last))
    decreases |presses|
  {
    if presses == [] {
      assert Clicks(pull, presses, releases) == [];
    } else {
      var n := |presses| - 1;
      var ps, rs := presses[..n], releases[..n];
      var click := Click(pull, presses[n], releases[n]);
      ClickTrainPrefix(b, presses, releases, n);
      ClicksCount(b, pull, ps, rs);
      var before := Run(b, pull, Clicks(pull, ps, rs));
      assert n > 0 ==> rs[|rs| - 1] == releases[n - 1];
      NextClick(b, pull, presses, releases, before.button);
      var after := Run(before.button, pull, click);
      ClicksLast(pull, presses, releases);
      RunAppend(b, pull, Clicks(pull, ps, rs), click);
      AlternatingAppend(before.events, after.events, n);
    }
  }

  /**
   * The last click of a train, from the record the clicks before it leave:
   * one more Down/Up pair and one more click counted.
   */
  lemma NextClick(b: Button, pull: PullDirection, presses: seq<Tick>, releases: seq<Tick>, before: Button)
    requires b.currentLevel == Up && b.lastTrueLevel == Up && b.clickType == Empty && b.clickCount == 0
    requires ClickTrain(b, presses, releases) && 0 < |presses| <= 0xFFFF
    requires var n := |presses| - 1;
      before == if n == 0 then b
                else b.(clickCount := n, isBusy := true, currentTick := releases[n - 1], lastTrueTick := releases[n - 1])
    ensures var n := |presses| - 1;
      var after := Run(before, pull, Click(pull, presses[n], releases[n]));
      && |after.events| == 2 && Alternating(after.events)
      && after.button == b.(clickCount := n + 1, isBusy := true, currentTick := releases[n], lastTrueTick := releases[n])
  {
    var n := |presses| - 1;
    if n > 0 {
      assert releases[n - 1] + DEBOUNCE_TICKS < presses[n] < releases[n - 1] + MULTI_CLICK_GAP_TICKS;
    }
    assert presses[n] + DEBOUNCE_TICKS < releases[n] < presses[n] + MULTI_CLICK_GAP_TICKS;
    ClickCounts(before, pull, presses[n], releases[n]);
    var after := Run(before, pull, Click(pull, presses[n], releases[n]));
    forall k | 0 <= k < |after.events|
      ensures after.events[k].clickType == (if k % 2 == 0 then ButtonDown else ButtonUp)
    {
      if k == 0 {
        assert k % 2 == 0;
      } else {
        assert k == 1 && k % 2 == 1;
      }
    }
  }

  /**
   * Any number `N` of two or more clicks, each pressed before the multi-click
   * gap after the previous release, then the receive timeout in the
   * multi-click window: `N` ButtonDown/ButtonUp pairs, then one MultiClick
   * carrying `N` narrowed to the event's eight bits, and the button is idle.
   */
  lemma MultiClickGesture(b: Button, pull: PullDirection, presses: seq<Tick>, releases: seq<Tick>, t: Tick)
    requires Idle(b)
    requires ClickTrain(b, presses, releases) && 2 <= |presses| <= 0xFFFF
    requires releases[|releases| - 1] + MULTI_CLICK_GAP_TICKS <= t < releases[|releases| - 1] + LONG_PRESS_START_GAP_TICKS
    ensures var o, n := Run(b, pull, Clicks(pull, presses, releases) + [Wake(true, t)]), |presses|;
      && |o.events| == 2 * n + 1
      && Alternating(o.events[..2 * n])
      && o.events[2 * n].clickType == MultiClick && o.events[2 * n].clickCount == n % 0x100
      && Idle(o.button) && o.button.lastTrueTick == releases[|releases| - 1]
  {
    ClicksCount(b, pull, presses, releases);
    var clicked := Run(b, pull, Clicks(pull, presses, releases));
    GapClassifies(clicked.button, pull, t);
    RunAppend(b, pull, Clicks(pull, presses, releases), [Wake(true, t)]);
  }
}
