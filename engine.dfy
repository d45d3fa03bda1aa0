/**
 * The state src/superbutton_rtos.c keeps in static variables, as one object:
 * the array of button records, the pull direction, the consumer task's
 * receive timeout and busy flag, and the outbound event queue, seen as the
 * sequence of events sent into it. Its methods are superbutton_init, the
 * interrupt handler, send_event and one wake of the consumer task.
 */
module SuperButtonRtos {
  import opened SuperButtonDefs
  import opened Decision

  /** The index the pass visits `o` steps after `start`: line 152's `i % button_info_len`. */
  function VisitIndex(start: nat, n: nat, o: nat): nat
    requires n > 0
  {
    (start + o) % n
  }

  /** How many steps after `start` the pass reaches index `k`. */
  function VisitOffset(start: nat, n: nat, k: nat): int
    requires n > 0
  {
    (k - start) % n
  }

  /**
   * The events one pass sends, for the first `count` visits in the order the
   * pass makes them: cyclically from index `start`. `clock[o]` is the tick
   * line 160 reads at visit `o`; only a busy record after a timeout uses it.
   */
  function PassEvents(bs: seq<Button>, start: nat, timedOut: bool, clock: seq<Tick>, count: nat): (r: seq<ClickEvent>)
    requires count <= |bs| == |clock|
    ensures |r| <= 2 * count
    decreases count
  {
    if count == 0 then []
    else PassEvents(bs, start, timedOut, clock, count - 1) + Visit(bs[VisitIndex(start, |bs|, count - 1)], timedOut, clock[count - 1]).events
  }

  /** A pass over records none of which is busy sends nothing. */
  lemma {:induction false} IdlePassSendsNothing(bs: seq<Button>, start: nat, timedOut: bool, clock: seq<Tick>, count: nat)
    requires count <= |bs| == |clock|
    requires forall k :: 0 <= k < |bs| ==> !bs[k].isBusy
    ensures PassEvents(bs, start, timedOut, clock, count) == []
  {
    if count > 0 {
      IdlePassSendsNothing(bs, start, timedOut, clock, count - 1);
      assert Visit(bs[VisitIndex(start, |bs|, count - 1)], timedOut, clock[count - 1]).events == [];
    }
  }

  /**
   * The records after the first `count` visits of one pass, in the order the
   * pass makes them: cyclically from index `start`.
   */
  function PassRecords(bs: seq<Button>, start: nat, timedOut: bool, clock: seq<Tick>, count: nat): (r: seq<Button>)
    requires count <= |bs| == |clock|
    ensures |r| == |bs|
    decreases count
  {
    if count == 0 then bs
    else
      var idx := VisitIndex(start, |bs|, count - 1);
      PassRecords(bs, start, timedOut, clock, count - 1)[idx := Visit(bs[idx], timedOut, clock[count - 1]).button]
  }

  /**
   * After `count` visits, exactly the records whose offset from `start` is
   * below `count` have been visited, each once, with the tick of its visit.
   */
  lemma {:induction false} PassRecordsAt(bs: seq<Button>, start: nat, timedOut: bool, clock: seq<Tick>, count: nat, k: nat)
    requires count <= |bs| == |clock| && k < |bs|
    ensures PassRecords(bs, start, timedOut, clock, count)[k] ==
      if VisitOffset(start, |bs|, k) < count then Visit(bs[k], timedOut, clock[VisitOffset(start, |bs|, k)]).button else bs[k]
  {
    var n := |bs|;
    CyclicIndex(start, n, k);
    if count > 0 {
      PassRecordsAt(bs, start, timedOut, clock, count - 1, k);
      var idx := VisitIndex(start, n, count - 1);
      CyclicOffset(start, n, count - 1);
      if k == idx {
        assert VisitOffset(start, n, k) == count - 1;
      } else {
        assert VisitOffset(start, n, k) != count - 1;
      }
    }
  }

  /** A whole pass visits every record once, record `k` at the tick of its offset. */
  lemma PassVisitsAll(bs: seq<Button>, start: nat, timedOut: bool, clock: seq<Tick>)
    requires |clock| == |bs|
    ensures forall k :: 0 <= k < |bs| ==>
      PassRecords(bs, start, timedOut, clock, |bs|)[k] == Visit(bs[k], timedOut, clock[VisitOffset(start, |bs|, k)]).button
  {
    forall k | 0 <= k < |bs|
      ensures PassRecords(bs, start, timedOut, clock, |bs|)[k] == Visit(bs[k], timedOut, clock[VisitOffset(start, |bs|, k)]).button
    {
      PassRecordsAt(bs, start, timedOut, clock, |bs|, k);
      CyclicIndex(start, |bs|, k);
    }
  }

  /** A multiple of a positive `n` strictly between `-n` and `n` is zero. */
  lemma MultipleNearZero(d: int, n: int)
    requires n > 0 && -n < d * n < n
    ensures d == 0
  {
    if d > 0 {
      MulAtLeast(d, n);
    } else if d < 0 {
      MulAtLeast(-d, n);
    }
  }

  lemma MulAtLeast(x: int, n: int)
    requires x >= 1 && n > 0
    ensures x * n >= n
  {
  }

  /** Euclidean remainders are unique. */
  lemma ModUnique(a: int, n: int, q: int, r: int)
    requires n > 0 && 0 <= r < n && a == q * n + r
    ensures a % n == r
  {
    var d := q - a / n;
    assert d * n == a % n - r;
    MultipleNearZero(d, n);
  }

  /** The visit `o` steps after `start` is to the index that is `o` steps after `start`. */
  lemma CyclicOffset(start: nat, n: nat, o: nat)
    requires o < n
    ensures VisitIndex(start, n, o) < n && VisitOffset(start, n, VisitIndex(start, n, o)) == o
  {
    var q := (start + o) / n;
    assert (start + o) % n - start == (-q) * n + o;
    ModUnique((start + o) % n - start, n, -q, o);
  }

  /** Every index `k` is visited, `VisitOffset(start, n, k)` steps after `start`. */
  lemma CyclicIndex(start: nat, n: nat, k: nat)
    requires k < n
    ensures 0 <= VisitOffset(start, n, k) < n && VisitIndex(start, n, VisitOffset(start, n, k)) == k
  {
    var q := (k - start) / n;
    assert start + (k - start) % n == (-q) * n + k;
    ModUnique(start + (k - start) % n, n, -q, k);
  }

  /** Whether the first `count` visits of a pass met a busy record: line 157's `isbusy`. */
  function SeenBusy(bs: seq<Button>, start: nat, count: nat): bool
    requires count <= |bs|
    decreases count
  {
    count > 0 && (SeenBusy(bs, start, count - 1) || bs[VisitIndex(start, |bs|, count - 1)].isBusy)
  }

  /** After `count` visits, a busy record was seen exactly when one lies at an offset below `count`. */
  lemma {:induction false} SeenBusyAt(bs: seq<Button>, start: nat, count: nat)
    requires count <= |bs|
    ensures SeenBusy(bs, start, count) <==>
      exists k :: 0 <= k < |bs| && VisitOffset(start, |bs|, k) < count && bs[k].isBusy
  {
    var n := |bs|;
    if count > 0 {
      SeenBusyAt(bs, start, count - 1);
      var idx := VisitIndex(start, n, count - 1);
      CyclicOffset(start, n, count - 1);
      if k :| 0 <= k < n && VisitOffset(start, n, k) < count && bs[k].isBusy {
        CyclicIndex(start, n, k);
      }
    }
  }

  /** A whole pass sees a busy record exactly when some record is busy. */
  lemma SeenBusyAnywhere(bs: seq<Button>, start: nat)
    ensures SeenBusy(bs, start, |bs|) <==> exists k :: 0 <= k < |bs| && bs[k].isBusy
  {
    SeenBusyAt(bs, start, |bs|);
    forall k | 0 <= k < |bs|
      ensures VisitOffset(start, |bs|, k) < |bs|
    {
      CyclicIndex(start, |bs|, k);
    }
  }

  /**
   * Visit number `count` of a pass: the record it reaches is still untouched,
   * and the records, the events and the busy flag each advance by that visit.
   */
  lemma PassStep(bs: seq<Button>, start: nat, timedOut: bool, clock: seq<Tick>, count: nat)
    requires count < |bs| == |clock|
    ensures VisitIndex(start, |bs|, count) < |bs|
    ensures var idx := VisitIndex(start, |bs|, count);
      var v := Visit(bs[idx], timedOut, clock[count]);
      && PassRecords(bs, start, timedOut, clock, count)[idx] == bs[idx]
      && PassRecords(bs, start, timedOut, clock, count + 1) == PassRecords(bs, start, timedOut, clock, count)[idx := v.button]
      && PassEvents(bs, start, timedOut, clock, count + 1) == PassEvents(bs, start, timedOut, clock, count) + v.events
      && SeenBusy(bs, start, count + 1) == (SeenBusy(bs, start, count) || bs[idx].isBusy)
  {
    CyclicOffset(start, |bs|, count);
    PassRecordsAt(bs, start, timedOut, clock, count, VisitIndex(start, |bs|, count));
  }

  class SuperButton {
    /** button_info; its length is button_info_len. */
    const buttons: array<Button>
    /** global_pull_direction. */
    const pullDirection: PullDirection
    /** The consumer task's queue_receive_delay. */
    var queueReceiveDelay: Tick
    /** The consumer task's isbusy. */
    var isBusy: bool
    /** The events sent to the caller's queue, oldest first. */
    var outbox: seq<ClickEvent>

    /** The array fits a uint8_t length and every record is consistent. */
    ghost predicate Valid()
      reads this, buttons
    {
      && buttons.Length < 0x100
      && forall k :: 0 <= k < buttons.Length ==> Consistent(buttons[k])
    }

    /** superbutton_init: one record per configured button, filled in order. */
    constructor (configs: seq<ButtonConfig>, pullDirection: PullDirection)
      requires |configs| < 0x100
      ensures Valid() && fresh(buttons)
      ensures buttons.Length == |configs|
      ensures forall k :: 0 <= k < |configs| ==> buttons[k] == InitialRecord(configs[k])
      ensures this.pullDirection == pullDirection
      ensures queueReceiveDelay == PORT_MAX_DELAY && !isBusy && outbox == []
    {
      buttons := new Button[|configs|];
      this.pullDirection := pullDirection;
      new;
      var i := 0;
      while i < |configs|
        invariant 0 <= i <= |configs|
        invariant forall k :: 0 <= k < i ==> buttons[k] == InitialRecord(configs[k])
      {
        buttons[i] := InitialRecord(configs[i]);
        i := i + 1;
      }
      queueReceiveDelay := PORT_MAX_DELAY;
      isBusy := false;
      outbox := [];
    }

    /** button_isr_handler for the button at `index`, with the pin's raw level and the tick. */
    method Isr(index: nat, raw: int, now: Tick)
      requires Valid() && index < buttons.Length
      modifies buttons
      ensures Valid()
      ensures buttons[..] == old(buttons[..])[index := IsrUpdate(old(buttons[index]), pullDirection, raw, now)]
    {
      buttons[index] := buttons[index].(currentLevel := MapLevel(pullDirection, raw));
      buttons[index] := buttons[index].(currentTick := now);
      buttons[index] := buttons[index].(isBusy := true);
    }

    /** send_event: copy the record's fields into an event and queue it. */
    method SendEvent(b: Button)
      modifies this`outbox
      ensures outbox == old(outbox) + [EventOf(b)]
    {
      var result := ClickEvent(b.pin, b.userData, b.clickType, b.clickCount % 0x100, 0);
      outbox := outbox + [result];
    }

    /** Lines 191-223 of the pass: classification by the elapsed period. */
    method ClassifyStep(b0: Button, period: Tick) returns (b: Button)
      modifies this`outbox
      ensures b == Classify(b0, period).button
      ensures outbox == old(outbox) + Classify(b0, period).events
    {
      b := b0;
      if period >= MULTI_CLICK_GAP_TICKS && period < LONG_PRESS_START_GAP_TICKS {
        if b.clickCount > 0 {
          b := b.(clickType := if b.clickCount == 1 then SingleClick else MultiClick);
          SendEvent(b);
          b := b.(clickCount := 0);
          b := b.(clickType := Empty);
        }
        if b.currentLevel == Up {
          b := b.(isBusy := false);
        }
      } else if period >= LONG_PRESS_START_GAP_TICKS {
        if b.currentLevel == Down && b.lastTrueLevel == Down && b.clickType == Empty {
          b := b.(clickType := LongPressStart);
          SendEvent(b);
          b := b.(clickCount := 0);
          b := b.(isBusy := false);
        } else if b.clickCount == 1 {
          b := b.(clickType := LongClick);
          SendEvent(b);
          b := b.(clickCount := 0);
          b := b.(clickType := Empty);
          b := b.(isBusy := false);
        }
      }
    }

    /** The body of the pass for one busy record, updating its fields one by one. */
    method DecideAt(idx: nat, tick: Tick)
      requires idx < buttons.Length
      modifies buttons, this`outbox
      ensures buttons[idx] == Decide(old(buttons[idx]), tick).button
      ensures forall k :: 0 <= k < buttons.Length && k != idx ==> buttons[k] == old(buttons[k])
      ensures outbox == old(outbox) + Decide(old(buttons[idx]), tick).events
    {
      ghost var b0, sent0 := buttons[idx], outbox;
      var b := buttons[idx];
      var period := Elapsed(tick, b.lastTrueTick);
      if period > DEBOUNCE_TICKS {
        if b.currentLevel != b.lastTrueLevel {
          b := b.(clickType := if b.currentLevel == Up then ButtonUp else ButtonDown);
          SendEvent(b);
          b := b.(clickType := Empty);
        }
        ghost var announced := Announce(b0);
        assert b == announced.button && outbox == sent0 + announced.events;

        if b.currentLevel == Up && b.lastTrueLevel == Down {
          b := b.(clickCount := IncCount(b.clickCount));
        } else if b.currentLevel == Up && b.lastTrueLevel == Undef {
          b := b.(isBusy := false);
        }
        ghost var counted := CountClick(announced.button);
        assert b == counted;

        b := ClassifyStep(b, period);
        ghost var classified := Classify(counted, period);
        assert b == classified.button && outbox == sent0 + announced.events + classified.events;

        if b.currentLevel != b.lastTrueLevel {
          b := b.(lastTrueLevel := b.currentLevel);
          b := b.(lastTrueTick := b.currentTick);
        }
        assert outbox == sent0 + (announced.events + classified.events);
        buttons[idx] := b;
      }
    }

    /**
     * One iteration of the pass's loop: skip a record that is not busy;
     * otherwise note that a busy record was seen, pick the tick and decide.
     */
    method VisitAt(idx: nat, timedOut: bool, now: Tick)
      requires idx < buttons.Length
      modifies buttons, this`outbox, this`isBusy
      ensures buttons[..] == old(buttons[..])[idx := Visit(old(buttons[idx]), timedOut, now).button]
      ensures outbox == old(outbox) + Visit(old(buttons[idx]), timedOut, now).events
      ensures isBusy == (old(isBusy) || old(buttons[idx]).isBusy)
    {
      if buttons[idx].isBusy {
        isBusy := true;
        var tick: Tick;
        if timedOut {
          tick := now;
        } else {
          tick := buttons[idx].currentTick;
        }
        DecideAt(idx, tick);
      }
    }

    /**
     * Visit number `j` of a pass that started from the records `bs` and the
     * outbox `sent0`: the state before it is that of the first `j` visits,
     * the state after it that of the first `j + 1`.
     */
    method VisitNext(idx: nat, timedOut: bool, clock: seq<Tick>, ghost bs: seq<Button>, ghost start: nat, j: nat, ghost sent0: seq<ClickEvent>)
      requires j < |bs| == |clock| == buttons.Length && idx == VisitIndex(start, |bs|, j)
      requires buttons[..] == PassRecords(bs, start, timedOut, clock, j)
      requires outbox == sent0 + PassEvents(bs, start, timedOut, clock, j)
      requires isBusy == SeenBusy(bs, start, j)
      modifies buttons, this`outbox, this`isBusy
      ensures buttons[..] == PassRecords(bs, start, timedOut, clock, j + 1)
      ensures outbox == sent0 + PassEvents(bs, start, timedOut, clock, j + 1)
      ensures isBusy == SeenBusy(bs, start, j + 1)
    {
      PassStep(bs, start, timedOut, clock, j);
      VisitAt(idx, timedOut, clock[j]);
      assert outbox == sent0 + (PassEvents(bs, start, timedOut, clock, j) + Visit(bs[idx], timedOut, clock[j]).events);
    }

    /**
     * The loop of lines 150-238: `buttons.Length` visits, starting at the
     * sample's index and wrapping around, with the pass's busy flag collected.
     */
    method VisitAll(start: nat, timedOut: bool, clock: seq<Tick>)
      requires buttons.Length == |clock| > 0
      modifies this`isBusy, this`outbox, buttons
      ensures buttons[..] == PassRecords(old(buttons[..]), start, timedOut, clock, buttons.Length)
      ensures outbox == old(outbox) + PassEvents(old(buttons[..]), start, timedOut, clock, buttons.Length)
      ensures isBusy == SeenBusy(old(buttons[..]), start, buttons.Length)
    {
      ghost var before := buttons[..];
      var n := buttons.Length;
      isBusy := false;
      var i := start;
      assert PassEvents(before, start, timedOut, clock, 0) == [];
      while i < n + start
        invariant start <= i <= n + start
        invariant buttons[..] == PassRecords(before, start, timedOut, clock, i - start)
        invariant outbox == old(outbox) + PassEvents(before, start, timedOut, clock, i - start)
        invariant isBusy == SeenBusy(before, start, i - start)
      {
        VisitNext(i % n, timedOut, clock, before, start, i - start, old(outbox));
        i := i + 1;
      }
    }

    /**
     * One wake of the consumer task after xQueueReceive returned: the sample's
     * index (arbitrary after a timeout, when the task reads an unset argument),
     * whether the receive timed out, and the ticks xTaskGetTickCount returns
     * at each visit of the pass, in visiting order.
     */
    method Pass(start: nat, timedOut: bool, clock: seq<Tick>)
      requires Valid() && start < 0x100 && |clock| == buttons.Length
      modifies this, buttons
      ensures Valid()
      ensures forall k :: 0 <= k < buttons.Length ==>
        buttons[k] == Visit(old(buttons[k]), timedOut, clock[VisitOffset(start, buttons.Length, k)]).button
      ensures outbox == old(outbox) + PassEvents(old(buttons[..]), start, timedOut, clock, buttons.Length)
      ensures isBusy <==> exists k :: 0 <= k < buttons.Length && old(buttons[k]).isBusy
      ensures queueReceiveDelay == if isBusy then BUSY_WAIT_TICKS else PORT_MAX_DELAY
      // The unbounded wait starts only when every record is settled, with nothing pending.
      ensures queueReceiveDelay == PORT_MAX_DELAY ==>
        forall k :: 0 <= k < buttons.Length ==>
          !buttons[k].isBusy && buttons[k].clickCount == 0 && buttons[k].currentLevel == buttons[k].lastTrueLevel
    {
      ghost var before := buttons[..];
      if buttons.Length == 0 {
        isBusy := false;
      } else {
        VisitAll(start, timedOut, clock);
        PassVisitsAll(before, start, timedOut, clock);
        SeenBusyAnywhere(before, start);
      }
      if isBusy {
        queueReceiveDelay := BUSY_WAIT_TICKS;
      } else {
        queueReceiveDelay := PORT_MAX_DELAY;
      }
    }
  }
}
